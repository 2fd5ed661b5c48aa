/**
 The token bucket with lazy linear refill, on values, and what it guarantees over a
 whole run at one constant configuration. Token counts are exact reals.
 */
module TokenBucket {
  import opened Prelude
  import opened FixedWindow

  /** What each call passes in: burst size, and tokens added per interval. */
  datatype Config = Config(capacity: real, refillTokens: real, refillIntervalMs: real)

  predicate Usable(c: Config) {
    c.refillTokens > 0.0 && c.refillIntervalMs > 0.0
  }

  /** The stored bucket; the last two fields are written and never read back. */
  datatype Bucket = Bucket(tokens: real, lastRefill: int, capacity: real, refillTokens: real, refillIntervalMs: real)

  /** Tokens earned over a span of milliseconds. */
  function Earned(c: Config, ms: int): real
    requires Usable(c)
  {
    ms as real / c.refillIntervalMs * c.refillTokens
  }

  /** The wait, in whole milliseconds, until that many tokens have been earned. */
  function Wait(c: Config, tokens: real): int
    requires Usable(c)
  {
    Ceil(tokens / c.refillTokens * c.refillIntervalMs)
  }

  function Opened(entry: Option<Bucket>, c: Config, now: int): Bucket {
    match entry
    case Some(b) => b
    case None => Bucket(c.capacity, now, c.capacity, c.refillTokens, c.refillIntervalMs)
  }

  function Refilled(b: Bucket, c: Config, now: int): Bucket
    requires Usable(c)
  {
    var elapsed := Max(0, now - b.lastRefill);
    if elapsed > 0 then
      b.(tokens := Min(b.capacity, b.tokens + Earned(c, elapsed)), lastRefill := now)
    else b
  }

  /** One call: the bucket afterwards and the answer. */
  function Consume(entry: Option<Bucket>, c: Config, cost: real, now: int): (Bucket, Outcome)
    requires Usable(c)
  {
    var b := Refilled(Opened(entry, c, now), c, now);
    if b.tokens >= cost then
      var left := b.tokens - cost;
      (b.(tokens := left), Outcome(true, left.Floor, now + Wait(c, b.capacity - left)))
    else
      (b, Outcome(false, (if b.tokens < 0.0 then 0.0 else b.tokens).Floor, now + Wait(c, cost - b.tokens)))
  }

  // ----- Arithmetic of the refill -----

  lemma EarnedAdds(c: Config, a: int, b: int)
    requires Usable(c)
    ensures Earned(c, a) + Earned(c, b) == Earned(c, a + b)
    ensures Earned(c, 0) == 0.0
  {
  }

  /** The rate written out: `refillTokens` per `refillIntervalMs` cover that many tokens in the span. */
  predicate Covers(c: Config, ms: int, tokens: real) {
    tokens * c.refillIntervalMs <= ms as real * c.refillTokens
  }

  /** The same as a quantity: what burst and rate allow over a span. */
  function Allowed(c: Config, ms: int): real
    requires Usable(c)
  {
    c.capacity + ms as real * c.refillTokens / c.refillIntervalMs
  }

  lemma EarnedAtRate(c: Config, ms: int)
    requires Usable(c)
    ensures Earned(c, ms) * c.refillIntervalMs == ms as real * c.refillTokens
  {
    var p := ms as real / c.refillIntervalMs;
    assert p * c.refillIntervalMs == ms as real;
    assert p * c.refillTokens * c.refillIntervalMs == p * c.refillIntervalMs * c.refillTokens;
  }

  /** Tokens are earned by then if and only if the rate covers them. */
  lemma EarnedIff(c: Config, ms: int, tokens: real)
    requires Usable(c)
    ensures tokens <= Earned(c, ms) <==> Covers(c, ms, tokens)
  {
    EarnedAtRate(c, ms);
    Ordered(Earned(c, ms), tokens, c.refillIntervalMs);
  }

  lemma EarnedIsAllowed(c: Config, ms: int)
    requires Usable(c)
    ensures c.capacity + Earned(c, ms) == Allowed(c, ms)
  {
    var q := ms as real * c.refillTokens / c.refillIntervalMs;
    assert q * c.refillIntervalMs == ms as real * c.refillTokens;
    EarnedAtRate(c, ms);
    Ordered(q, Earned(c, ms), c.refillIntervalMs);
  }

  lemma EarnedGrows(c: Config, a: int, b: int)
    requires Usable(c)
    ensures a <= b ==> Earned(c, a) <= Earned(c, b)
    ensures a < b ==> Earned(c, a) < Earned(c, b)
  {
  }

  lemma Ordered(x: real, y: real, z: real)
    requires z > 0.0
    ensures x < y <==> x * z < y * z
    ensures x == y <==> x * z == y * z
  {
  }

  /** The wait is exact: the tokens are earned at that millisecond and not before. */
  lemma WaitIsExact(c: Config, tokens: real, ms: int)
    requires Usable(c)
    ensures Earned(c, ms) >= tokens <==> ms >= Wait(c, tokens)
  {
    var p, q := ms as real / c.refillIntervalMs, tokens / c.refillTokens;
    assert p * c.refillIntervalMs == ms as real && q * c.refillTokens == tokens;
    Ordered(p, q, c.refillTokens);
    Ordered(p, q, c.refillIntervalMs);
  }

  // ----- Runs of calls on one bucket -----

  datatype Call = Call(now: int, cost: real)

  function BucketAfter(c: Config, calls: seq<Call>): Option<Bucket>
    requires Usable(c)
  {
    if calls == [] then None
    else
      var n := |calls| - 1;
      Some(Consume(BucketAfter(c, calls[..n]), c, calls[n].cost, calls[n].now).0)
  }

  function AnswerAt(c: Config, calls: seq<Call>, i: nat): Outcome
    requires Usable(c) && i < |calls|
  {
    Consume(BucketAfter(c, calls[..i]), c, calls[i].cost, calls[i].now).1
  }

  /** The tokens a call made at `now` finds. */
  function Level(entry: Option<Bucket>, c: Config, now: int): real
    requires Usable(c)
  {
    Refilled(Opened(entry, c, now), c, now).tokens
  }

  /** The latest clock reading up to and including call `i`: the clock may step back. */
  function Clock(calls: seq<Call>, i: nat): int
    requires i < |calls|
  {
    if i == 0 then calls[0].now else Max(Clock(calls, i - 1), calls[i].now)
  }

  /** The cost granted to the calls from `from` up to, and without, `to`. */
  function Spent(c: Config, calls: seq<Call>, from: nat, to: nat): real
    requires Usable(c) && to <= |calls|
  {
    if to <= from then 0.0
    else Spent(c, calls, from, to - 1) + if AnswerAt(c, calls, to - 1).success then calls[to - 1].cost else 0.0
  }

  /** What the rate allows call `i` to find at most, given what was granted since call `k`. */
  function Allowance(c: Config, calls: seq<Call>, k: nat, i: nat): real
    requires Usable(c) && k <= i < |calls|
  {
    c.capacity + Earned(c, Clock(calls, i) - Clock(calls, k)) - Spent(c, calls, k, i)
  }

  ghost predicate Legal(c: Config, calls: seq<Call>) {
    Usable(c) && forall i :: 0 <= i < |calls| ==> calls[i].cost >= 0.0
  }

  /** A bucket as every run of configuration `c` leaves it. */
  predicate Settled(entry: Option<Bucket>, c: Config) {
    entry.Some? ==>
      entry.value == Bucket(entry.value.tokens, entry.value.lastRefill, c.capacity, c.refillTokens, c.refillIntervalMs)
      && entry.value.tokens <= c.capacity
  }

  lemma ConsumeSettles(entry: Option<Bucket>, c: Config, cost: real, now: int)
    requires Usable(c) && Settled(entry, c) && cost >= 0.0
    ensures Settled(Some(Consume(entry, c, cost, now).0), c)
    ensures Level(entry, c, now) <= c.capacity
  {
  }

  /** Between two calls only the clock and the granted cost move the level. */
  lemma LevelAfter(c: Config, calls: seq<Call>, i: nat)
    requires Legal(c, calls) && i < |calls|
    ensures var b := BucketAfter(c, calls[..i + 1]);
      Settled(b, c) && b.Some? && b.value.lastRefill == Clock(calls, i)
      && b.value.tokens == Level(BucketAfter(c, calls[..i]), c, calls[i].now) - Spent(c, calls, i, i + 1)
    ensures Level(BucketAfter(c, calls[..i]), c, calls[i].now) <= c.capacity
  {
    assert calls[..i + 1][..i] == calls[..i];
    if i > 0 {
      LevelAfter(c, calls, i - 1);
    }
    ConsumeSettles(BucketAfter(c, calls[..i]), c, calls[i].cost, calls[i].now);
  }

  lemma ClockGrows(calls: seq<Call>, i: nat, j: nat)
    requires i <= j < |calls|
    ensures Clock(calls, i) <= Clock(calls, j)
  {
  }

  function Found(c: Config, calls: seq<Call>, i: nat): real
    requires Usable(c) && i < |calls|
  {
    Level(BucketAfter(c, calls[..i]), c, calls[i].now)
  }

  /** What a call finds in a stored bucket: its tokens and what was earned since, up to the capacity. */
  lemma LevelOf(b: Bucket, c: Config, now: int)
    requires Usable(c) && Settled(Some(b), c)
    ensures Level(Some(b), c, now) == Min(c.capacity, b.tokens + Earned(c, Max(0, now - b.lastRefill)))
  {
    EarnedAdds(c, 0, 0);
  }

  /** From one call to the next the level loses the granted cost and regains at most the rate. */
  lemma FoundStep(c: Config, calls: seq<Call>, i: nat)
    requires Legal(c, calls) && 0 < i < |calls|
    ensures Found(c, calls, i) == Min(c.capacity,
      Found(c, calls, i - 1) - Spent(c, calls, i - 1, i) + Earned(c, Clock(calls, i) - Clock(calls, i - 1)))
  {
    LevelAfter(c, calls, i - 1);
    LevelOf(BucketAfter(c, calls[..i]).value, c, calls[i].now);
    assert Max(0, calls[i].now - Clock(calls, i - 1)) == Clock(calls, i) - Clock(calls, i - 1);
  }

  /** The level a call finds is the smallest of the allowances since each earlier call. */
  lemma {:induction false} LevelIsLeastAllowance(c: Config, calls: seq<Call>, i: nat) returns (tight: nat)
    requires Legal(c, calls) && i < |calls|
    ensures forall k: nat | k <= i :: Found(c, calls, i) <= Allowance(c, calls, k, i)
    ensures tight <= i && Found(c, calls, i) == Allowance(c, calls, tight, i)
  {
    OwnAllowance(c, calls, i);
    if i == 0 {
      tight := 0;
    } else {
      tight := LevelIsLeastAllowance(c, calls, i - 1);
      FoundStep(c, calls, i);
      forall k: nat | k < i ensures Found(c, calls, i) <= Allowance(c, calls, k, i) {
        AllowanceStep(c, calls, k, i);
      }
      AllowanceStep(c, calls, tight, i);
      if Found(c, calls, i) == c.capacity { tight := i; }
    }
  }

  lemma OwnAllowance(c: Config, calls: seq<Call>, i: nat)
    requires Legal(c, calls) && i < |calls|
    ensures Found(c, calls, i) <= c.capacity == Allowance(c, calls, i, i)
  {
    LevelAfter(c, calls, i);
    EarnedAdds(c, 0, 0);
  }

  lemma AllowanceStep(c: Config, calls: seq<Call>, k: nat, i: nat)
    requires Legal(c, calls) && k < i < |calls|
    ensures Allowance(c, calls, k, i) == Allowance(c, calls, k, i - 1)
      + Earned(c, Clock(calls, i) - Clock(calls, i - 1)) - Spent(c, calls, i - 1, i)
  {
    EarnedAdds(c, Clock(calls, i - 1) - Clock(calls, k), Clock(calls, i) - Clock(calls, i - 1));
  }

  /**
   Counted from call `k`, granting call `i` as well stays within burst plus rate: what it exceeds
   the capacity by is covered by the rate over the time between.
   */
  predicate Within(c: Config, calls: seq<Call>, k: nat, i: nat)
    requires Usable(c) && k <= i < |calls|
  {
    Covers(c, Clock(calls, i) - Clock(calls, k), Spent(c, calls, k, i) + calls[i].cost - c.capacity)
  }

  /** Counted from every earlier call and from itself. */
  ghost predicate WithinAlways(c: Config, calls: seq<Call>, i: nat)
    requires Usable(c) && i < |calls|
  {
    forall k: nat | k <= i :: Within(c, calls, k, i)
  }

  lemma WithinAllowance(c: Config, calls: seq<Call>, k: nat, i: nat)
    requires Usable(c) && k <= i < |calls|
    ensures Within(c, calls, k, i) <==> calls[i].cost <= Allowance(c, calls, k, i)
  {
    EarnedIff(c, Clock(calls, i) - Clock(calls, k), Spent(c, calls, k, i) + calls[i].cost - c.capacity);
  }

  /**
   Admission is exact, even if the clock steps back: a call is granted if and only if, counted
   from every earlier call and from itself, the granted cost stays within burst plus rate.
   */
  lemma AdmissionIsExact(c: Config, calls: seq<Call>, i: nat)
    requires Legal(c, calls) && i < |calls|
    ensures AnswerAt(c, calls, i).success <==> WithinAlways(c, calls, i)
  {
    var tight := LevelIsLeastAllowance(c, calls, i);
    var found := Found(c, calls, i);
    assert AnswerAt(c, calls, i).success <==> calls[i].cost <= found;
    forall k: nat | k <= i ensures Within(c, calls, k, i) <==> calls[i].cost <= Allowance(c, calls, k, i) {
      WithinAllowance(c, calls, k, i);
    }
    assert Within(c, calls, tight, i) <==> calls[i].cost <= found;
  }

  lemma {:induction false} SpentIsEarned(c: Config, calls: seq<Call>, j: nat, i: nat)
    requires Legal(c, calls) && c.capacity >= 0.0 && j <= i < |calls|
    ensures Spent(c, calls, j, i + 1) <= c.capacity + Earned(c, Clock(calls, i) - Clock(calls, j))
    decreases i
  {
    EarnedAdds(c, 0, 0);
    if AnswerAt(c, calls, i).success {
      AdmissionIsExact(c, calls, i);
      assert Within(c, calls, j, i);
      WithinAllowance(c, calls, j, i);
    } else if j < i {
      SpentIsEarned(c, calls, j, i - 1);
      ClockGrows(calls, i - 1, i);
      EarnedGrows(c, Clock(calls, i - 1) - Clock(calls, j), Clock(calls, i) - Clock(calls, j));
    }
  }

  /** What burst and rate allow from call `first` to the end of the run. */
  function AllowedSince(c: Config, calls: seq<Call>, first: nat): real
    requires Usable(c) && first < |calls|
  {
    Allowed(c, Clock(calls, |calls| - 1) - Clock(calls, first))
  }

  /** Granted cost over any stretch of the run never exceeds burst plus rate, however the clock moves. */
  lemma BurstPlusRate(c: Config, calls: seq<Call>, j: nat, i: nat)
    requires Legal(c, calls) && c.capacity >= 0.0 && j <= i < |calls|
    ensures Spent(c, calls, j, i + 1) <= Allowed(c, Clock(calls, i) - Clock(calls, j))
  {
    SpentIsEarned(c, calls, j, i);
    EarnedIsAllowed(c, Clock(calls, i) - Clock(calls, j));
  }

  /** A call on a stored bucket succeeds if and only if the bucket can hold its cost and has it by then. */
  lemma GrantedIff(b: Bucket, c: Config, cost: real, ms: nat)
    requires Usable(c) && Settled(Some(b), c)
    ensures Consume(Some(b), c, cost, b.lastRefill + ms).1.success
      <==> cost <= c.capacity && Covers(c, ms, cost - b.tokens)
  {
    LevelOf(b, c, b.lastRefill + ms);
    EarnedIff(c, ms, cost - b.tokens);
  }

  lemma CoversWhole(c: Config, ms: nat, k: nat, tokens: real)
    requires Usable(c) && c.refillIntervalMs == ms as real
    ensures Covers(c, k * ms, tokens) <==> tokens <= k as real * c.refillTokens
  {
    var r := k as real * c.refillTokens;
    assert (k * ms) as real == k as real * c.refillIntervalMs;
    assert (k * ms) as real * c.refillTokens == r * c.refillIntervalMs;
    Ordered(r, tokens, c.refillIntervalMs);
  }

  /** After whole intervals that many refills are there, up to the capacity. */
  lemma WholeIntervals(b: Bucket, c: Config, cost: real, ms: nat, k: nat)
    requires Usable(c) && Settled(Some(b), c) && c.refillIntervalMs == ms as real
    ensures Consume(Some(b), c, cost, b.lastRefill + k * ms).1.success
      <==> cost <= Min(c.capacity, b.tokens + k as real * c.refillTokens)
  {
    GrantedIff(b, c, cost, k * ms);
    CoversWhole(c, ms, k, cost - b.tokens);
  }

  /** What is left of a full bucket after that many calls of one cost. */
  function LeftAfter(c: Config, cost: real, n: nat): real {
    c.capacity - n as real * cost
  }

  lemma OneMoreCall(c: Config, cost: real, n: nat)
    ensures LeftAfter(c, cost, n + 1) == LeftAfter(c, cost, n) - cost && LeftAfter(c, cost, 0) == c.capacity
  {
    assert (n + 1) as real * cost == n as real * cost + cost;
  }

  /** A bucket that `n` calls of one cost have met at one moment. */
  predicate Met(b: Bucket, c: Config, now: int, cost: real, n: nat) {
    b.lastRefill == now && b.capacity == c.capacity
    && if LeftAfter(c, cost, n) >= 0.0 then b.tokens == LeftAfter(c, cost, n) else b.tokens < cost
  }

  lemma MetOnceMore(b: Bucket, c: Config, now: int, cost: real, n: nat)
    requires Usable(c) && cost >= 0.0 && Met(b, c, now, cost, n)
    ensures var (after, answer) := Consume(Some(b), c, cost, now);
      Met(after, c, now, cost, n + 1) && (answer.success <==> LeftAfter(c, cost, n + 1) >= 0.0)
  {
    OneMoreCall(c, cost, n);
  }

  /** A bucket not opened yet answers the first call as a full one does, unless its capacity is negative. */
  lemma {:induction false} OneMomentMet(c: Config, calls: seq<Call>, now: int, cost: real, i: nat)
    requires Usable(c) && cost >= 0.0 && c.capacity >= 0.0 && i < |calls|
    requires forall j :: 0 <= j < |calls| ==> calls[j] == Call(now, cost)
    ensures AnswerAt(c, calls, i).success <==> LeftAfter(c, cost, i + 1) >= 0.0
    ensures BucketAfter(c, calls[..i + 1]).Some? && Met(BucketAfter(c, calls[..i + 1]).value, c, now, cost, i + 1)
  {
    assert calls[..i + 1][..i] == calls[..i];
    if i > 0 {
      OneMomentMet(c, calls, now, cost, i - 1);
      MetOnceMore(BucketAfter(c, calls[..i]).value, c, now, cost, i);
    } else {
      OneMoreCall(c, cost, 0);
      MetOnceMore(Opened(None, c, now), c, now, cost, 0);
      assert BucketAfter(c, calls[..0]) == None;
      assert Consume(None, c, cost, now) == Consume(Some(Opened(None, c, now)), c, cost, now);
    }
  }

  /** The capacity pays for that many calls of one cost. */
  predicate Pays(capacity: real, cost: real, n: nat) {
    n as real * cost <= capacity
  }

  /** At one moment calls of one cost are granted just while their sum stays within the capacity. */
  lemma OneMoment(c: Config, calls: seq<Call>, now: int, cost: real, i: nat)
    requires Usable(c) && cost >= 0.0 && c.capacity >= 0.0 && i < |calls|
    requires forall j :: 0 <= j < |calls| ==> calls[j] == Call(now, cost)
    ensures AnswerAt(c, calls, i).success <==> Pays(c.capacity, cost, i + 1)
  {
    OneMomentMet(c, calls, now, cost, i);
  }

  // ----- Lazy refill equals continuous refill -----

  ghost predicate Nondecreasing(calls: seq<Call>) {
    forall i, j :: 0 <= i <= j < |calls| ==> calls[i].now <= calls[j].now
  }

  function Answers(c: Config, calls: seq<Call>): (r: seq<Outcome>)
    requires Usable(c)
    ensures |r| == |calls|
  {
    if calls == [] then []
    else Answers(c, calls[..|calls| - 1]) + [AnswerAt(c, calls, |calls| - 1)]
  }

  lemma {:induction false} AnswersAt(c: Config, calls: seq<Call>, i: nat)
    requires Usable(c) && i < |calls|
    ensures Answers(c, calls)[i] == AnswerAt(c, calls, i)
  {
    var n := |calls| - 1;
    if i < n {
      AnswersAt(c, calls[..n], i);
      assert calls[..n][..i] == calls[..i];
    }
  }

  /** Refilling in two steps is refilling once. */
  lemma RefillComposes(entry: Option<Bucket>, c: Config, t1: int, t2: int)
    requires Usable(c) && Settled(entry, c) && t1 <= t2
    requires entry.Some? ==> entry.value.lastRefill <= t1
    ensures Level(entry, c, t2) == Min(c.capacity, Level(entry, c, t1) + Earned(c, t2 - t1))
  {
    EarnedAdds(c, 0, 0);
    EarnedGrows(c, 0, t2 - t1);
    if entry.Some? {
      EarnedAdds(c, t1 - entry.value.lastRefill, t2 - t1);
      EarnedGrows(c, 0, t1 - entry.value.lastRefill);
    }
  }

  /** A bucket of configuration `c` no newer than `t`. */
  predicate Usual(entry: Option<Bucket>, c: Config, t: int) {
    Settled(entry, c) && (entry.Some? ==> entry.value.lastRefill <= t)
  }

  /** Equally full buckets answer and continue alike, and a refusal keeps them equally full. */
  lemma EquallyFull(e: Option<Bucket>, f: Option<Bucket>, c: Config, call: Call, t: int)
    requires Usable(c) && call.cost >= 0.0 && call.now <= t
    requires Usual(e, c, call.now) && Usual(f, c, call.now) && Level(e, c, call.now) == Level(f, c, call.now)
    ensures Consume(e, c, call.cost, call.now) == Consume(f, c, call.cost, call.now)
    ensures var (b, answer) := Consume(e, c, call.cost, call.now);
      Usual(Some(b), c, t) && Usual(f, c, t) && (!answer.success ==> Level(Some(b), c, t) == Level(f, c, t))
  {
    ConsumeSettles(e, c, call.cost, call.now);
    RefillComposes(f, c, call.now, t);
    RefillComposes(Some(Consume(e, c, call.cost, call.now).0), c, call.now, t);
    EarnedAdds(c, 0, 0);
  }

  /** Two runs that answer alike and leave the bucket equally full. */
  predicate Alike(c: Config, calls: seq<Call>, fewer: seq<Call>, t: int)
    requires Usable(c)
  {
    var (e, f) := (BucketAfter(c, calls), BucketAfter(c, fewer));
    Usual(e, c, t) && Usual(f, c, t) && Level(e, c, t) == Level(f, c, t)
  }

  lemma OneMore(c: Config, calls: seq<Call>, last: Call)
    requires Usable(c)
    ensures var step := Consume(BucketAfter(c, calls), c, last.cost, last.now);
      BucketAfter(c, calls + [last]) == Some(step.0) && Answers(c, calls + [last]) == Answers(c, calls) + [step.1]
  {
  }

  lemma AlikeStep(c: Config, calls: seq<Call>, fewer: seq<Call>, last: Call, t: int)
    requires Usable(c) && last.cost >= 0.0 && last.now <= t && Alike(c, calls, fewer, last.now)
    ensures Alike(c, calls + [last], fewer + [last], t)
    ensures Consume(BucketAfter(c, calls), c, last.cost, last.now).1
         == Consume(BucketAfter(c, fewer), c, last.cost, last.now).1
    ensures !Consume(BucketAfter(c, calls), c, last.cost, last.now).1.success ==> Alike(c, calls + [last], fewer, t)
  {
    OneMore(c, calls, last);
    OneMore(c, fewer, last);
    EquallyFull(BucketAfter(c, calls), BucketAfter(c, fewer), c, last, t);
  }

  /** Only refused calls are marked for deletion. */
  ghost predicate DropsRefusals(answers: seq<Outcome>, keep: seq<bool>) {
    |keep| == |answers| && forall i: nat | i < |answers| && !keep[i] :: !answers[i].success
  }

  lemma DropsOneLess(before: seq<Outcome>, answer: Outcome, keep: seq<bool>)
    requires DropsRefusals(before + [answer], keep)
    ensures DropsRefusals(before, keep[..|before|]) && (!keep[|before|] ==> !answer.success)
  {
    var all := before + [answer];
    assert all[|before|] == answer;
    forall i: nat | i < |before| && !keep[..|before|][i] ensures !before[i].success {
      assert !keep[i] && all[i] == before[i];
    }
  }

  /** One more call, kept or dropped. */
  lemma TraceStep(c: Config, before: seq<Call>, kept: seq<Call>, last: Call, k: bool, t: int)
    requires Usable(c) && last.cost >= 0.0 && last.now <= t && Alike(c, before, kept, last.now)
    requires !k ==> !Consume(BucketAfter(c, before), c, last.cost, last.now).1.success
    ensures Alike(c, before + [last], if k then kept + [last] else kept, t)
    ensures Answers(c, kept + [last]) == Answers(c, kept) + [Consume(BucketAfter(c, before), c, last.cost, last.now).1]
  {
    AlikeStep(c, before, kept, last, t);
    OneMore(c, kept, last);
  }

  /**
   Refused calls leave no trace: deleting any of them from a run leaves every other answer
   as it was, and the bucket equally full at every later moment.
   */
  lemma {:induction false} RefusalsLeaveNoTrace(c: Config, calls: seq<Call>, keep: seq<bool>, t: int)
    requires Legal(c, calls) && Nondecreasing(calls) && DropsRefusals(Answers(c, calls), keep)
    requires calls != [] ==> calls[|calls| - 1].now <= t
    ensures Answers(c, Select(calls, keep)) == Select(Answers(c, calls), keep)
    ensures Alike(c, calls, Select(calls, keep), t)
  {
    if calls != [] {
      var n := |calls| - 1;
      var before, last := calls[..n], calls[n];
      var kept := Select(before, keep[..n]);
      var answer := Consume(BucketAfter(c, before), c, last.cost, last.now).1;
      assert calls == before + [last] && keep == keep[..n] + [keep[n]];
      OneMore(c, before, last);
      DropsOneLess(Answers(c, before), answer, keep);
      RefusalsLeaveNoTrace(c, before, keep[..n], last.now);
      TraceStep(c, before, kept, last, keep[n], t);
      SelectOneMore(before, keep[..n], last, keep[n]);
      SelectOneMore(Answers(c, before), keep[..n], answer, keep[n]);
    }
  }

  // ----- The reported reset -----

  /**
   A refused call, left undisturbed, succeeds from `reset` on, shifted by as much as the clock had
   stepped back behind the last refill, and never if it costs more than the bucket can hold.
   */
  lemma RetryShift(entry: Option<Bucket>, c: Config, cost: real, now: int, t: int)
    requires Usable(c) && Settled(entry, c)
    requires !Consume(entry, c, cost, now).1.success
    ensures var (b, refused) := Consume(entry, c, cost, now);
      b.lastRefill >= now
      && (Consume(Some(b), c, cost, t).1.success <==>
            cost <= c.capacity && t >= refused.reset + (b.lastRefill - now))
  {
    var (b, refused) := Consume(entry, c, cost, now);
    WaitIsExact(c, cost - b.tokens, t - b.lastRefill);
    WaitIsExact(c, cost - b.tokens, 0);
    EarnedAdds(c, 0, 0);
  }

  /**
   The reported reset is the exact retry time if and only if the bucket can hold the cost and the
   clock has not stepped back behind the last refill.
   */
  lemma RetryIsExact(entry: Option<Bucket>, c: Config, cost: real, now: int)
    requires Usable(c) && Settled(entry, c)
    requires !Consume(entry, c, cost, now).1.success
    ensures var (b, refused) := Consume(entry, c, cost, now);
      (forall t: int :: Consume(Some(b), c, cost, t).1.success <==> t >= refused.reset)
      <==> cost <= c.capacity && (entry.Some? ==> entry.value.lastRefill <= now)
  {
    var (b, refused) := Consume(entry, c, cost, now);
    forall t: int
      ensures Consume(Some(b), c, cost, t).1.success <==>
        cost <= c.capacity && t >= refused.reset + (b.lastRefill - now)
    {
      RetryShift(entry, c, cost, now, t);
    }
    RetryShift(entry, c, cost, now, now);
    assert Consume(Some(b), c, cost, refused.reset).1.success <==> cost <= c.capacity && b.lastRefill <= now;
  }

  /** A cost of two on a bucket of one: the reset promises success after a second, and it never comes. */
  lemma RetryNeverComes(t: int)
    ensures var c := Config(1.0, 1.0, 1000.0);
      var (b, refused) := Consume(None, c, 2.0, 0);
      !refused.success && refused.reset == 1000 && !Consume(Some(b), c, 2.0, t).1.success
  {
    var c := Config(1.0, 1.0, 1000.0);
    RetryShift(None, c, 2.0, 0, t);
    WaitIsExact(c, 1.0, 1000);
    WaitIsExact(c, 1.0, 999);
  }

  /**
   After a granted call the bucket is full from `reset` on, shifted by as much as the clock had
   stepped back, unless the grant left it full.
   */
  lemma FullShift(entry: Option<Bucket>, c: Config, cost: real, now: int, t: int)
    requires Usable(c) && Settled(entry, c) && cost >= 0.0
    requires Consume(entry, c, cost, now).1.success
    ensures var (b, granted) := Consume(entry, c, cost, now);
      b.lastRefill >= now && b.tokens == Level(entry, c, now) - cost
      && (Level(Some(b), c, t) == c.capacity <==>
            b.tokens == c.capacity || t >= granted.reset + (b.lastRefill - now))
  {
    var (b, granted) := Consume(entry, c, cost, now);
    WaitIsExact(c, c.capacity - b.tokens, t - b.lastRefill);
    WaitIsExact(c, c.capacity - b.tokens, 0);
    EarnedAdds(c, 0, 0);
  }

  /**
   After a granted call `reset` is the first millisecond at which the bucket is full again, if and
   only if the clock has not stepped back, or the call cost nothing and found the bucket full.
   */
  lemma FullIsExact(entry: Option<Bucket>, c: Config, cost: real, now: int)
    requires Usable(c) && Settled(entry, c) && cost >= 0.0
    requires Consume(entry, c, cost, now).1.success
    ensures var (b, granted) := Consume(entry, c, cost, now);
      (forall t: int | t >= now :: Level(Some(b), c, t) == c.capacity <==> t >= granted.reset)
      <==> (entry.Some? ==> entry.value.lastRefill <= now) || (cost == 0.0 && Level(entry, c, now) == c.capacity)
  {
    var (b, granted) := Consume(entry, c, cost, now);
    forall t: int
      ensures Level(Some(b), c, t) == c.capacity <==>
        b.tokens == c.capacity || t >= granted.reset + (b.lastRefill - now)
    {
      FullShift(entry, c, cost, now, t);
    }
    FullShift(entry, c, cost, now, now);
    ConsumeSettles(entry, c, cost, now);
    WaitIsExact(c, c.capacity - b.tokens, 0);
    EarnedAdds(c, 0, 0);
    assert granted.reset >= now;
    assert Level(Some(b), c, granted.reset) == c.capacity <==> b.tokens == c.capacity || b.lastRefill <= now;
  }

  /** `remaining` is the whole tokens left by a grant, or found by a refusal and then never below 0. */
  lemma RemainingMeans(entry: Option<Bucket>, c: Config, cost: real, now: int)
    requires Usable(c)
    ensures var (answer, found) := (Consume(entry, c, cost, now).1, Level(entry, c, now));
      if answer.success then answer.remaining as real <= found - cost < answer.remaining as real + 1.0
      else answer.remaining >= 0 && (found < 1.0 ==> answer.remaining == 0)
           && (found >= 0.0 ==> answer.remaining as real <= found < answer.remaining as real + 1.0)
  {
  }

  /** `remaining` is exact: at the same moment a whole-number cost is granted if and only if it is no larger. */
  lemma RemainingIsExact(entry: Option<Bucket>, c: Config, cost: real, now: int, next: nat)
    requires Usable(c) && Level(entry, c, now) >= 0.0
    ensures var (b, answer) := Consume(entry, c, cost, now);
      Consume(Some(b), c, next as real, now).1.success <==> next <= answer.remaining
  {
  }
}
