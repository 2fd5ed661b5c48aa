/** The in-memory rate-limit store, and what its callers get when they interleave. */
module MemoryRateLimit {
  import opened Prelude
  import opened FixedWindow
  import opened TokenBucket
  import opened RateLimitRequests

  function Key(namespace: string, identifier: string): string {
    namespace + ":" + identifier
  }

  /** One namespace starts like the other, up to a colon: the only way two callers can share a key. */
  predicate Clash(n1: string, n2: string) {
    n1 != n2 && (n1 + ":" <= n2 || n2 + ":" <= n1)
  }

  /** Identifiers under which two clashing namespaces meet in one key. */
  function Meeting(n1: string, n2: string): (ids: (string, string))
    requires Clash(n1, n2)
    ensures Key(n1, ids.0) == Key(n2, ids.1)
  {
    if n1 + ":" <= n2 then
      assert n2 == n1 + ":" + n2[|n1| + 1..];
      (n2[|n1| + 1..] + ":", "")
    else
      assert n1 == n2 + ":" + n1[|n2| + 1..];
      ("", n1[|n2| + 1..] + ":")
  }

  lemma MeetingClashes(n1: string, i1: string, n2: string, i2: string)
    requires Key(n1, i1) == Key(n2, i2) && |n1| < |n2|
    ensures n1 + ":" <= n2
  {
    var k := Key(n1, i1);
    assert k[..|n2|] == n2 && k[..|n1| + 1] == n1 + ":";
    assert n2[..|n1| + 1] == k[..|n1| + 1];
  }

  /** Namespaces that do not clash give different keys to different pairs. */
  lemma KeyIsInjective(n1: string, i1: string, n2: string, i2: string)
    requires Key(n1, i1) == Key(n2, i2)
    ensures Clash(n1, n2) || (n1 == n2 && i1 == i2)
  {
    var k := Key(n1, i1);
    if |n1| == |n2| {
      assert n1 == k[..|n1|] == n2;
      assert i1 == k[|n1| + 1..] == i2;
    } else if |n1| < |n2| {
      MeetingClashes(n1, i1, n2, i2);
    } else {
      MeetingClashes(n2, i2, n1, i1);
    }
  }

  /**
   Two namespaces can be confused, some identifier under one sharing the key of some identifier
   under the other, if and only if one of them with a colon appended begins the other.
   */
  lemma ConfusedIffClash(n1: string, n2: string)
    requires n1 != n2
    ensures (exists i1: string, i2: string :: Key(n1, i1) == Key(n2, i2)) <==> Clash(n1, n2)
  {
    if i1: string, i2: string :| Key(n1, i1) == Key(n2, i2) {
      KeyIsInjective(n1, i1, n2, i2);
    }
    if Clash(n1, n2) {
      var ids := Meeting(n1, n2);
      assert Key(n1, ids.0) == Key(n2, ids.1);
    }
  }

  /** A namespace that extends another past a colon shares its counters: `a:b` and `a`. */
  lemma ColonsCollide(a: string, b: string, c: string)
    ensures Clash(a, a + ":" + b) && Key(a + ":" + b, c) == Key(a, b + ":" + c)
  {
  }

  /** No two of these namespaces clash; namespaces without colons never do. */
  ghost predicate Apart(namespaces: set<string>) {
    forall n1, n2 | n1 in namespaces && n2 in namespaces :: !Clash(n1, n2)
  }

  lemma ColonInside(n1: string, n2: string)
    ensures n1 + ":" <= n2 ==> ':' in n2
  {
    if n1 + ":" <= n2 { assert n2[|n1|] == ':'; }
  }

  lemma ColonFreeAreApart(namespaces: set<string>)
    requires forall n | n in namespaces :: ':' !in n
    ensures Apart(namespaces)
  {
    forall n1, n2 | n1 in namespaces && n2 in namespaces ensures !Clash(n1, n2) {
      ColonInside(n1, n2);
      ColonInside(n2, n1);
    }
  }

  /** The two maps of the store. */
  datatype Limiter = Limiter(windows: map<string, Window>, buckets: map<string, Bucket>)

  const EMPTY := Limiter(map[], map[])

  function Serve(s: Limiter, r: Request, now: int): (Limiter, Reply)
    requires Defined(r)
  {
    var k := Key(r.namespace, r.identifier);
    match r
    case IncrementAndCheck(_, _, limit, d) =>
      var (w, answer) := Hit(Get(s.windows, k), limit, d, now);
      (s.(windows := s.windows[k := w]), Answered(answer))
    case Check(_, _, limit, d) =>
      (s, Answered(Peek(Get(s.windows, k), limit, d, now)))
    case ConsumeTokenBucket(_, _, c, cost) =>
      var (b, answer) := Consume(Get(s.buckets, k), c, cost, now);
      (s.(buckets := s.buckets[k := b]), Answered(answer))
    case Reset(_, _) =>
      (Limiter(s.windows - {k}, s.buckets - {k}), Cleared)
  }

  class MemoryRateLimitStore {
    var windows: map<string, Window>
    var buckets: map<string, Bucket>

    function State(): Limiter
      reads this
    {
      Limiter(windows, buckets)
    }

    constructor ()
      ensures State() == EMPTY
    {
      windows, buckets := map[], map[];
    }

    method IncrementAndCheck(namespace: string, identifier: string, limit: int, durationMs: int, now: int)
      returns (r: Outcome)
      modifies this
      ensures (State(), Answered(r))
           == Serve(old(State()), RateLimitRequests.IncrementAndCheck(namespace, identifier, limit, durationMs), now)
    {
      var k := Key(namespace, identifier);
      var entry := Get(windows, k);
      if entry.None? || entry.value.reset <= now {
        var reset := now + durationMs;
        windows := windows[k := Window(1, reset)];
        return Outcome(true, Max(0, limit - 1), reset);
      }
      if entry.value.count < limit {
        var count := entry.value.count + 1;
        windows := windows[k := Window(count, entry.value.reset)];
        return Outcome(true, Max(0, limit - count), entry.value.reset);
      }
      assert windows[k := entry.value] == windows;
      return Outcome(false, 0, entry.value.reset);
    }

    method Check(namespace: string, identifier: string, limit: int, durationMs: int, now: int)
      returns (r: Outcome)
      ensures (State(), Answered(r))
           == Serve(State(), RateLimitRequests.Check(namespace, identifier, limit, durationMs), now)
    {
      var entry := Get(windows, Key(namespace, identifier));
      if entry.None? || entry.value.reset <= now {
        return Outcome(true, Max(0, limit), now + durationMs);
      }
      if entry.value.count < limit {
        return Outcome(true, Max(0, limit - entry.value.count), entry.value.reset);
      }
      return Outcome(false, 0, entry.value.reset);
    }

    method ConsumeTokenBucket(namespace: string, identifier: string, c: Config, cost: real, now: int)
      returns (r: Outcome)
      requires Usable(c)
      modifies this
      ensures (State(), Answered(r))
           == Serve(old(State()), RateLimitRequests.ConsumeTokenBucket(namespace, identifier, c, cost), now)
    {
      var k := Key(namespace, identifier);
      var bucket := if k in buckets then buckets[k]
                    else Bucket(c.capacity, now, c.capacity, c.refillTokens, c.refillIntervalMs);
      var elapsed := Max(0, now - bucket.lastRefill);
      if elapsed > 0 {
        var tokensToAdd := Earned(c, elapsed);
        bucket := bucket.(tokens := Min(bucket.capacity, bucket.tokens + tokensToAdd), lastRefill := now);
      }
      if bucket.tokens >= cost {
        bucket := bucket.(tokens := bucket.tokens - cost);
        buckets := buckets[k := bucket];
        var missing := bucket.capacity - bucket.tokens;
        return Outcome(true, bucket.tokens.Floor, now + Wait(c, missing));
      }
      buckets := buckets[k := bucket];
      var needed := cost - bucket.tokens;
      return Outcome(false, (if bucket.tokens < 0.0 then 0.0 else bucket.tokens).Floor, now + Wait(c, needed));
    }

    method Reset(namespace: string, identifier: string, ghost now: int)
      modifies this
      ensures (State(), Cleared) == Serve(old(State()), RateLimitRequests.Reset(namespace, identifier), now)
    {
      var k := Key(namespace, identifier);
      windows := windows - {k};
      buckets := buckets - {k};
    }
  }

  // ----- Runs: every interleaving of the calls that concurrent verifications make -----

  function After(run: seq<Timed>): Limiter
    requires AllDefined(run)
  {
    if run == [] then EMPTY
    else
      var n := |run| - 1;
      Serve(After(run[..n]), run[n].request, run[n].now).0
  }

  function ReplyAt(run: seq<Timed>, i: nat): Reply
    requires AllDefined(run) && i < |run|
  {
    Serve(After(run[..i]), run[i].request, run[i].now).1
  }

  predicate On(r: Request, key: string) {
    Key(r.namespace, r.identifier) == key
  }

  function HitOf(t: Timed, key: string): seq<int> {
    if t.request.IncrementAndCheck? && On(t.request, key) then [t.now] else []
  }

  function CallOf(t: Timed, key: string): seq<Call> {
    if t.request.ConsumeTokenBucket? && On(t.request, key) then [Call(t.now, t.request.cost)] else []
  }

  /** The clock readings of the counted requests on one key. */
  function HitsOn(run: seq<Timed>, key: string): seq<int> {
    if run == [] then [] else HitsOn(run[..|run| - 1], key) + HitOf(run[|run| - 1], key)
  }

  /** The token-bucket calls on one key. */
  function CallsOn(run: seq<Timed>, key: string): seq<Call> {
    if run == [] then [] else CallsOn(run[..|run| - 1], key) + CallOf(run[|run| - 1], key)
  }

  /** A request touches the entries of its own key only. */
  lemma ServeIsLocal(s: Limiter, r: Request, now: int, key: string)
    requires Defined(r) && !On(r, key)
    ensures Get(Serve(s, r, now).0.windows, key) == Get(s.windows, key)
    ensures Get(Serve(s, r, now).0.buckets, key) == Get(s.buckets, key)
  {
  }

  /** What a request does to the entries of its own key. */
  lemma ServeOwnKey(s: Limiter, r: Request, now: int)
    requires Defined(r)
    ensures var k, after := Key(r.namespace, r.identifier), Serve(s, r, now).0;
      var (w, b) := (Get(s.windows, k), Get(s.buckets, k));
      Get(after.windows, k) == (if r.Reset? then None
        else if r.IncrementAndCheck? then Some(Hit(w, r.limit, r.durationMs, now).0) else w)
      && Get(after.buckets, k) == (if r.Reset? then None
        else if r.ConsumeTokenBucket? then Some(Consume(b, r.config, r.cost, now).0) else b)
  {
  }

  // ----- Each key on its own -----

  /** The requests of a run that are about one key. */
  function OnlyOn(run: seq<Timed>, key: string): (own: seq<Timed>)
    ensures forall t | t in own :: t in run
  {
    if run == [] then []
    else OnlyOn(run[..|run| - 1], key) + if On(run[|run| - 1].request, key) then [run[|run| - 1]] else []
  }

  lemma OnlyOnDefined(run: seq<Timed>, key: string)
    requires AllDefined(run)
    ensures AllDefined(OnlyOn(run, key))
  {
    forall i | 0 <= i < |OnlyOn(run, key)| ensures Defined(OnlyOn(run, key)[i].request) {
      assert OnlyOn(run, key)[i] in run;
    }
  }

  predicate SameOn(s: Limiter, t: Limiter, key: string) {
    Get(s.windows, key) == Get(t.windows, key) && Get(s.buckets, key) == Get(t.buckets, key)
  }

  /** A request is answered from the entries of its own key. */
  lemma AnsweredFromOwnKey(s: Limiter, t: Limiter, r: Request, now: int)
    requires Defined(r) && SameOn(s, t, Key(r.namespace, r.identifier))
    ensures Serve(s, r, now).1 == Serve(t, r, now).1
    ensures SameOn(Serve(s, r, now).0, Serve(t, r, now).0, Key(r.namespace, r.identifier))
  {
  }

  /**
   Calls on other keys are invisible, whatever configurations and resets a run mixes: the entries
   of a key are those that its own requests alone would have left.
   */
  lemma {:induction false} KeysAreIsolated(run: seq<Timed>, key: string)
    requires AllDefined(run)
    ensures AllDefined(OnlyOn(run, key)) && SameOn(After(run), After(OnlyOn(run, key)), key)
  {
    OnlyOnDefined(run, key);
    if run != [] {
      var n := |run| - 1;
      var (before, t) := (run[..n], run[n]);
      KeysAreIsolated(before, key);
      if On(t.request, key) {
        var own := OnlyOn(before, key);
        assert (own + [t])[..|own|] == own;
        AnsweredFromOwnKey(After(before), After(own), t.request, t.now);
      } else {
        ServeIsLocal(After(before), t.request, t.now, key);
        assert OnlyOn(run, key) == OnlyOn(before, key);
      }
    }
  }

  /** Every request of every run is answered as it would be without the requests on other keys. */
  lemma RepliesAreIsolated(run: seq<Timed>, i: nat)
    requires AllDefined(run) && i < |run|
    ensures var own := OnlyOn(run[..i], Key(run[i].request.namespace, run[i].request.identifier));
      AllDefined(own + [run[i]]) && ReplyAt(run, i) == ReplyAt(own + [run[i]], |own|)
  {
    var r := run[i].request;
    var own := OnlyOn(run[..i], Key(r.namespace, r.identifier));
    KeysAreIsolated(run[..i], Key(r.namespace, r.identifier));
    assert (own + [run[i]])[..|own|] == own;
    AnsweredFromOwnKey(After(run[..i]), After(own), r, run[i].now);
  }

  /** A reset makes its key as new: every later request on it is answered as by an empty store. */
  lemma ResetForgets(s: Limiter, reset: Request, now: int, next: Request, later: int)
    requires reset.Reset? && Defined(next) && On(next, Key(reset.namespace, reset.identifier))
    ensures Serve(Serve(s, reset, now).0, next, later).1 == Serve(EMPTY, next, later).1
  {
  }

  // ----- A key with one configuration: the runs of the single-key guarantees -----

  /** A call on this key that uses the given window or bucket configuration and resets nothing. */
  predicate Conforms(r: Request, key: string, limit: int, d: int, c: Config) {
    On(r, key) ==>
      match r
      case IncrementAndCheck(_, _, l, dur) => l == limit && dur == d
      case Check(_, _, _, _) => true
      case ConsumeTokenBucket(_, _, conf, _) => conf == c
      case Reset(_, _) => false
  }

  /** Every call on this key uses one configuration; calls on other keys are free. */
  ghost predicate Uniform(run: seq<Timed>, key: string, limit: int, d: int, c: Config) {
    Usable(c) && AllDefined(run)
    && forall i :: 0 <= i < |run| ==> Conforms(run[i].request, key, limit, d, c)
  }

  lemma CallLast(c: Config, calls: seq<Call>, now: int, cost: real)
    requires Usable(c)
    ensures var (b, answer) := Consume(BucketAfter(c, calls), c, cost, now);
      BucketAfter(c, calls + [Call(now, cost)]) == Some(b)
      && AnswerAt(c, calls + [Call(now, cost)], |calls|) == answer
  {
  }

  lemma IsolatedStep(
      s: Limiter, t: Timed, key: string, limit: int, d: int, c: Config, hits: seq<int>, calls: seq<Call>)
    requires Usable(c) && Defined(t.request) && Conforms(t.request, key, limit, d, c)
    requires Get(s.windows, key) == WindowAfter(limit, d, hits) && Get(s.buckets, key) == BucketAfter(c, calls)
    ensures var after := Serve(s, t.request, t.now).0;
      Get(after.windows, key) == WindowAfter(limit, d, hits + HitOf(t, key))
      && Get(after.buckets, key) == BucketAfter(c, calls + CallOf(t, key))
  {
    assert hits + [] == hits && calls + [] == calls;
    if On(t.request, key) {
      ServeOwnKey(s, t.request, t.now);
      HitLast(limit, d, hits, t.now);
      if t.request.ConsumeTokenBucket? {
        CallLast(c, calls, t.now, t.request.cost);
      }
    } else {
      ServeIsLocal(s, t.request, t.now, key);
    }
  }

  /** Under one configuration a key evolves as the single-key run of its requests. */
  lemma {:induction false} RunsAlone(run: seq<Timed>, key: string, limit: int, d: int, c: Config)
    requires Uniform(run, key, limit, d, c)
    ensures Get(After(run).windows, key) == WindowAfter(limit, d, HitsOn(run, key))
    ensures Get(After(run).buckets, key) == BucketAfter(c, CallsOn(run, key))
  {
    if run != [] {
      var n := |run| - 1;
      RunsAlone(run[..n], key, limit, d, c);
      IsolatedStep(After(run[..n]), run[n], key, limit, d, c, HitsOn(run[..n], key), CallsOn(run[..n], key));
    }
  }

  /** Each call on a key is answered as the single-key run answers it, however it is interleaved. */
  lemma AnsweredAlone(run: seq<Timed>, key: string, limit: int, d: int, c: Config, i: nat)
    requires Uniform(run, key, limit, d, c) && i < |run| && On(run[i].request, key)
    ensures run[i].request.IncrementAndCheck? ==>
      var hits := HitsOn(run[..i], key);
      ReplyAt(run, i) == Answered(OutcomeAt(limit, d, hits + [run[i].now], |hits|))
    ensures run[i].request.Check? ==>
      ReplyAt(run, i) == Answered(
        Peek(WindowAfter(limit, d, HitsOn(run[..i], key)), run[i].request.limit, run[i].request.durationMs, run[i].now))
    ensures run[i].request.ConsumeTokenBucket? ==>
      var calls := CallsOn(run[..i], key);
      ReplyAt(run, i) == Answered(AnswerAt(c, calls + [Call(run[i].now, run[i].request.cost)], |calls|))
  {
    RunsAlone(run[..i], key, limit, d, c);
    if run[i].request.IncrementAndCheck? {
      HitLast(limit, d, HitsOn(run[..i], key), run[i].now);
    }
    if run[i].request.ConsumeTokenBucket? {
      CallLast(c, CallsOn(run[..i], key), run[i].now, run[i].request.cost);
    }
  }

  /** The latest reading among the window requests on `key`; 0 before any. */
  function LatestHit(run: seq<Timed>, key: string): int {
    if HitsOn(run, key) == [] then 0 else Latest(HitsOn(run, key))
  }

  /** How many window requests on `key` a run grants while the latest reading among them is in [from, to). */
  function GrantsOn(run: seq<Timed>, key: string, from: int, to: int): nat
    requires AllDefined(run)
  {
    if run == [] then 0
    else
      var n := |run| - 1;
      GrantsOn(run[..n], key, from, to)
      + if run[n].request.IncrementAndCheck? && On(run[n].request, key) && ReplyAt(run, n).outcome.success
           && from <= LatestHit(run, key) < to then 1 else 0
  }

  lemma SameGrants(limit: int, d: int, hits: seq<int>, now: int, from: int, to: int, i: nat)
    requires i < |hits|
    ensures GrantedBetween(limit, d, hits + [now], from, to)(i) == GrantedBetween(limit, d, hits, from, to)(i)
  {
    assert (hits + [now])[..|hits|] == hits && (hits + [now])[..i + 1] == hits[..i + 1];
    PrefixAnswers(limit, d, hits + [now], |hits|, i);
  }

  /** Whether the request that follows `hits` is granted while the latest reading is in [from, to). */
  predicate GrantedNext(limit: int, d: int, hits: seq<int>, now: int, from: int, to: int) {
    OutcomeAt(limit, d, hits + [now], |hits|).success && from <= Latest(hits + [now]) < to
  }

  lemma LastGrant(limit: int, d: int, hits: seq<int>, now: int, from: int, to: int)
    ensures GrantedBetween(limit, d, hits + [now], from, to)(|hits|) == GrantedNext(limit, d, hits, now, from, to)
  {
    assert (hits + [now])[..|hits| + 1] == hits + [now];
  }

  /** One more request adds its own grant to the count. */
  lemma CountLast(limit: int, d: int, hits: seq<int>, now: int, from: int, to: int)
    ensures Grants(limit, d, hits + [now], from, to)
      == Grants(limit, d, hits, from, to) + if GrantedNext(limit, d, hits, now, from, to) then 1 else 0
  {
    var (p, q) := (GrantedBetween(limit, d, hits + [now], from, to), GrantedBetween(limit, d, hits, from, to));
    forall i: nat | i < |hits| ensures p(i) == q(i) {
      SameGrants(limit, d, hits, now, from, to, i);
    }
    LastGrant(limit, d, hits, now, from, to);
    CountOneMore(p, q, |hits|);
  }

  lemma {:induction false} GrantsOnIsCount(
      run: seq<Timed>, key: string, limit: int, d: int, c: Config, from: int, to: int)
    requires Uniform(run, key, limit, d, c)
    ensures GrantsOn(run, key, from, to) == Grants(limit, d, HitsOn(run, key), from, to)
  {
    if run != [] {
      var n := |run| - 1;
      GrantsOnIsCount(run[..n], key, limit, d, c, from, to);
      var hits := HitsOn(run[..n], key);
      if run[n].request.IncrementAndCheck? && On(run[n].request, key) {
        AnsweredAlone(run, key, limit, d, c, n);
        CountLast(limit, d, hits, run[n].now, from, to);
      } else {
        assert HitsOn(run, key) == hits;
      }
    }
  }

  /**
   The interval bound holds for a key under every interleaving with any other traffic, and for any
   clock, on the latest reading of the requests on that key.
   */
  lemma IntervalBoundInterleaved(run: seq<Timed>, key: string, limit: int, d: int, c: Config, from: int)
    requires Uniform(run, key, limit, d, c) && d > 0
    ensures GrantsOn(run, key, from, from + d) <= 2 * Quota(limit) - 1
  {
    GrantsOnIsCount(run, key, limit, d, c, from, from + d);
    IntervalBound(limit, d, HitsOn(run, key), from);
  }

  lemma {:induction false} LatestSoFar(run: seq<Timed>, key: string)
    requires ClockMovesOn(run) && HitsOn(run, key) != []
    ensures run != [] && Latest(HitsOn(run, key)) <= run[|run| - 1].now
  {
    var n := |run| - 1;
    var hits := HitsOn(run[..n], key);
    if hits != [] { LatestSoFar(run[..n], key); }
    if HitOf(run[n], key) == [] {
      assert HitsOn(run, key) == hits;
    } else {
      LatestOfMore(hits, run[n].now);
    }
  }

  /** Under a clock that moves on, that latest reading is the request's own. */
  lemma LatestIsOwn(run: seq<Timed>, key: string)
    requires ClockMovesOn(run) && run != []
    requires run[|run| - 1].request.IncrementAndCheck? && On(run[|run| - 1].request, key)
    ensures LatestHit(run, key) == run[|run| - 1].now
  {
    LatestSoFar(run, key);
    LatestOfMore(HitsOn(run[..|run| - 1], key), run[|run| - 1].now);
  }

  // ----- Burst plus rate under interleaving -----

  /** What the last request costs this key: its cost if it is a bucket call on it and granted. */
  function LastCost(run: seq<Timed>, key: string): real
    requires AllDefined(run) && run != []
  {
    var n := |run| - 1;
    if run[n].request.ConsumeTokenBucket? && On(run[n].request, key) && ReplyAt(run, n).outcome.success
    then run[n].request.cost else 0.0
  }

  /** The cost a run grants to bucket calls on `key`. */
  function CostOn(run: seq<Timed>, key: string): real
    requires AllDefined(run)
  {
    if run == [] then 0.0 else CostOn(run[..|run| - 1], key) + LastCost(run, key)
  }

  /** The cost it grants from request number `from` on. */
  function SpentOn(run: seq<Timed>, key: string, from: nat): real
    requires AllDefined(run) && from <= |run|
  {
    CostOn(run, key) - CostOn(run[..from], key)
  }

  lemma {:induction false} SpentPrefix(c: Config, calls: seq<Call>, more: seq<Call>, to: nat)
    requires Usable(c) && to <= |calls| && calls <= more
    ensures Spent(c, more, 0, to) == Spent(c, calls, 0, to)
  {
    if to > 0 {
      SpentPrefix(c, calls, more, to - 1);
      assert more[..to - 1] == calls[..to - 1];
    }
  }

  /** One more call adds its own cost if it is granted. */
  lemma SpentLast(c: Config, calls: seq<Call>, last: Call)
    requires Usable(c)
    ensures Spent(c, calls + [last], 0, |calls| + 1) == Spent(c, calls, 0, |calls|)
      + if AnswerAt(c, calls + [last], |calls|).success then last.cost else 0.0
  {
    SpentPrefix(c, calls, calls + [last], |calls|);
  }

  lemma {:induction false} SpentSplits(c: Config, calls: seq<Call>, from: nat, to: nat)
    requires Usable(c) && from <= to <= |calls|
    ensures Spent(c, calls, from, to) == Spent(c, calls, 0, to) - Spent(c, calls, 0, from)
  {
    if from < to { SpentSplits(c, calls, from, to - 1); }
  }

  lemma CostStep(run: seq<Timed>, key: string, limit: int, d: int, c: Config, spent: real)
    requires Uniform(run, key, limit, d, c) && run != []
    requires var calls := CallsOn(run[..|run| - 1], key); spent == Spent(c, calls, 0, |calls|)
    ensures Spent(c, CallsOn(run, key), 0, |CallsOn(run, key)|) == spent + LastCost(run, key)
  {
    var n := |run| - 1;
    var calls := CallsOn(run[..n], key);
    if run[n].request.ConsumeTokenBucket? && On(run[n].request, key) {
      var call := Call(run[n].now, run[n].request.cost);
      AnsweredAlone(run, key, limit, d, c, n);
      SpentLast(c, calls, call);
      assert CallsOn(run, key) == calls + [call];
    } else {
      assert CallsOn(run, key) == calls;
    }
  }

  lemma {:induction false} CostIsSpent(run: seq<Timed>, key: string, limit: int, d: int, c: Config)
    requires Uniform(run, key, limit, d, c)
    ensures CostOn(run, key) == Spent(c, CallsOn(run, key), 0, |CallsOn(run, key)|)
  {
    if run != [] {
      CostIsSpent(run[..|run| - 1], key, limit, d, c);
      CostStep(run, key, limit, d, c, CostOn(run[..|run| - 1], key));
    }
  }

  lemma {:induction false} CallsGrow(run: seq<Timed>, key: string, from: nat)
    requires from <= |run|
    ensures CallsOn(run[..from], key) <= CallsOn(run, key)
    ensures from < |run| && run[from].request.ConsumeTokenBucket? && On(run[from].request, key) ==>
      |CallsOn(run[..from], key)| < |CallsOn(run, key)|
  {
    var n := |run| - 1;
    if from < |run| {
      assert run[..n][..from] == run[..from];
      CallsGrow(run[..n], key, from);
    } else {
      assert run[..from] == run;
    }
  }

  lemma SpentOnIsSpent(run: seq<Timed>, key: string, limit: int, d: int, c: Config, from: nat)
    requires Uniform(run, key, limit, d, c) && from <= |run|
    ensures |CallsOn(run[..from], key)| <= |CallsOn(run, key)|
    ensures SpentOn(run, key, from)
         == Spent(c, CallsOn(run, key), |CallsOn(run[..from], key)|, |CallsOn(run, key)|)
  {
    var (calls, first) := (CallsOn(run, key), |CallsOn(run[..from], key)|);
    CallsGrow(run, key, from);
    CostIsSpent(run, key, limit, d, c);
    CostIsSpent(run[..from], key, limit, d, c);
    SpentPrefix(c, CallsOn(run[..from], key), calls, first);
    SpentSplits(c, calls, first, |calls|);
  }

  /** No bucket call on this key has a negative cost. */
  ghost predicate Priced(run: seq<Timed>, key: string) {
    forall i :: 0 <= i < |run| && run[i].request.ConsumeTokenBucket? && On(run[i].request, key) ==>
      run[i].request.cost >= 0.0
  }

  lemma {:induction false} PricedCalls(run: seq<Timed>, key: string, i: nat)
    requires Priced(run, key) && i < |CallsOn(run, key)|
    ensures CallsOn(run, key)[i].cost >= 0.0
  {
    var n := |run| - 1;
    if i < |CallsOn(run[..n], key)| { PricedCalls(run[..n], key, i); }
  }

  lemma LegalCalls(run: seq<Timed>, key: string, c: Config)
    requires Usable(c) && Priced(run, key)
    ensures TokenBucket.Legal(c, CallsOn(run, key))
  {
    forall i | 0 <= i < |CallsOn(run, key)| ensures CallsOn(run, key)[i].cost >= 0.0 {
      PricedCalls(run, key, i);
    }
  }

  lemma StretchIsBounded(c: Config, calls: seq<Call>, first: nat)
    requires TokenBucket.Legal(c, calls) && c.capacity >= 0.0 && first < |calls|
    ensures Spent(c, calls, first, |calls|) <= AllowedSince(c, calls, first)
  {
    BurstPlusRate(c, calls, first, |calls| - 1);
  }

  /**
   Burst plus rate for a key under every interleaving and any clock: from one of its bucket calls to
   the end of the run, the granted cost is at most the capacity and what was earned meanwhile.
   */
  lemma BurstPlusRateInterleaved(run: seq<Timed>, key: string, limit: int, d: int, c: Config, from: nat)
    requires Uniform(run, key, limit, d, c) && Priced(run, key) && c.capacity >= 0.0
    requires from < |run| && run[from].request.ConsumeTokenBucket? && On(run[from].request, key)
    ensures |CallsOn(run[..from], key)| < |CallsOn(run, key)|
    ensures SpentOn(run, key, from) <= AllowedSince(c, CallsOn(run, key), |CallsOn(run[..from], key)|)
  {
    CallsGrow(run, key, from);
    SpentOnIsSpent(run, key, limit, d, c, from);
    LegalCalls(run, key, c);
    StretchIsBounded(c, CallsOn(run, key), |CallsOn(run[..from], key)|);
  }
}
