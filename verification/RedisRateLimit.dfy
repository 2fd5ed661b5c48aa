/**
 The Redis rate-limit store: one key per (namespace, identifier) holding either a counter
 with a deadline or the text `tokens:lastRefill`, and its agreement with the memory store.
 */
module RedisRateLimit {
  import opened Prelude
  import opened Decimal
  import opened FixedWindow
  import opened TokenBucket
  import opened RateLimitRequests
  import Sqlite = SqliteRateLimit
  import Memory = MemoryRateLimit

  datatype Value = Counter(n: int) | Text(s: string)

  /** A stored value; Redis drops it once its deadline is reached. */
  datatype Entry = Entry(value: Value, expireAt: Option<int>)

  type Db = map<string, Entry>

  /** How fractional token counts are printed and read back. */
  datatype Codec = Codec(show: real -> string, read: string -> real)

  /** A client that offers `eval` runs both scripts; one that does not runs neither. */
  datatype Client = Client(prefix: string, eval: bool, codec: Codec)

  predicate Exact(codec: Codec, x: real) {
    codec.read(codec.show(x)) == x && ':' !in codec.show(x)
  }

  function Prefixed(prefix: string, key: string): string {
    prefix + ":" + key
  }

  function Key(prefix: string, namespace: string, identifier: string): string {
    Prefixed(prefix, Memory.Key(namespace, identifier))
  }

  predicate Reached(e: Entry, now: int) {
    e.expireAt.Some? && e.expireAt.value <= now
  }

  function Live(db: Db, k: string, now: int): Option<Entry> {
    if k in db && !Reached(db[k], now) then Some(db[k]) else None
  }

  /** The window script: INCR, PEXPIRE on the first count, and the answer from PTTL. */
  function CountScript(entry: Option<Entry>, limit: int, ttlMs: int, now: int): (Option<Entry>, Reply) {
    match entry
    case Some(Entry(Text(_), _)) => (entry, Failed)
    case None =>
      (Some(Entry(Counter(1), Some(now + ttlMs))), Answered(Outcome(true, limit - 1, now + ttlMs)))
    case Some(Entry(Counter(n), expireAt)) =>
      var current := n + 1;
      if current == 1 then
        (Some(Entry(Counter(1), Some(now + ttlMs))), Answered(Outcome(true, limit - 1, now + ttlMs)))
      else
        var e := Entry(Counter(current), expireAt);
        var reset := if expireAt.Some? && expireAt.value - now > 0 then expireAt.value else now + ttlMs;
        if current <= limit then (Some(e), Answered(Outcome(true, Max(0, limit - current), reset)))
        else (Some(e), Answered(Outcome(false, 0, reset)))
  }

  /** The answer without scripts, from the counter and its deadline. */
  function Counted(count: int, deadline: int, limit: int, durationMs: int, now: int): (Option<Entry>, Reply) {
    var reset := if deadline - now > 0 then deadline else now + durationMs;
    (Some(Entry(Counter(count), Some(deadline))),
     Answered(if count <= limit then Outcome(true, Max(0, limit - count), reset) else Outcome(false, 0, reset)))
  }

  /** The window without scripts: INCR, and PEXPIRE when the counter is new or has no deadline. */
  function CountCommands(entry: Option<Entry>, limit: int, durationMs: int, now: int): (Option<Entry>, Reply) {
    match entry
    case Some(Entry(Text(_), _)) => (entry, Failed)
    case None => Counted(1, now + durationMs, limit, durationMs, now)
    case Some(Entry(Counter(n), expireAt)) =>
      var isNew := n + 1 == 1 || expireAt.None? || expireAt.value < now;
      Counted(n + 1, if isNew then now + durationMs else expireAt.value, limit, durationMs, now)
  }

  function CountCall(eval: bool, entry: Option<Entry>, limit: int, durationMs: int, now: int): (Option<Entry>, Reply) {
    if eval then CountScript(entry, limit, durationMs, now) else CountCommands(entry, limit, durationMs, now)
  }

  function PeekEntry(entry: Option<Entry>, limit: int, durationMs: int, now: int): Outcome {
    match entry
    case Some(Entry(Counter(n), Some(deadline))) =>
      if n < limit then Outcome(true, Max(0, limit - n), deadline) else Outcome(false, 0, deadline)
    case _ => Outcome(true, limit, now + durationMs)
  }

  /** The stored text as a bucket; anything without a colon counts as no bucket. */
  function Decode(entry: Option<Entry>, c: Config, now: int, codec: Codec): Option<Bucket> {
    match entry
    case Some(Entry(Text(raw), _)) =>
      var sep := IndexOf(raw, ':');
      if sep == |raw| then None
      else Some(Bucket(codec.read(raw[..sep]), Or(ReadInt(raw[sep + 1..]), now),
                       c.capacity, c.refillTokens, c.refillIntervalMs))
    case _ => None
  }

  /** What the bucket script fails on: a value without a colon, such as a counter. */
  predicate Unreadable(entry: Option<Entry>) {
    entry.Some? && (entry.value.value.Counter? || ':' !in entry.value.value.s)
  }

  function Encode(b: Bucket, codec: Codec): Entry {
    Entry(Text(codec.show(b.tokens) + ":" + PrintInt(b.lastRefill)), None)
  }

  function Serve(db: Db, r: Request, now: int, client: Client): (Db, Reply)
    requires Defined(r)
  {
    var k := Key(client.prefix, r.namespace, r.identifier);
    match r
    case IncrementAndCheck(_, _, limit, d) =>
      var (e, answer) := CountCall(client.eval, Live(db, k, now), limit, d, now);
      (if e.Some? then db[k := e.value] else db, answer)
    case Check(_, _, limit, d) =>
      (db, Answered(PeekEntry(Live(db, k, now), limit, d, now)))
    case ConsumeTokenBucket(_, _, c, cost) =>
      var stored := Live(db, k, now);
      if client.eval && Unreadable(stored) then (db, Failed)  // the bucket script finds no colon
      else
        var (b, answer) := Sqlite.ConsumeRow(Decode(stored, c, now, client.codec), c, cost, now);
        (db[k := Encode(b, client.codec)], Answered(answer))
    case Reset(_, _) => (db - {k}, Cleared)
  }

  class RedisRateLimitStore {
    const client: Client
    var db: Db

    constructor (keyPrefix: Option<string>, eval: bool, codec: Codec)
      ensures client == Client(Or(keyPrefix, "usefulkey:rl"), eval, codec) && db == map[]
    {
      client, db := Client(Or(keyPrefix, "usefulkey:rl"), eval, codec), map[];
    }

    method IncrementAndCheck(namespace: string, identifier: string, limit: int, durationMs: int, now: int)
      returns (r: Reply)
      modifies this
      ensures (db, r) == Serve(old(db),
        RateLimitRequests.IncrementAndCheck(namespace, identifier, limit, durationMs), now, client)
    {
      if client.eval {
        r := RunScript(Key(client.prefix, namespace, identifier), limit, durationMs, now);
      } else {
        r := RunCommands(Key(client.prefix, namespace, identifier), limit, durationMs, now);
      }
    }

    method RunScript(k: string, limit: int, ttlMs: int, now: int) returns (r: Reply)
      modifies this
      ensures var (e, answer) := CountScript(Live(old(db), k, now), limit, ttlMs, now);
        r == answer && db == if e.Some? then old(db)[k := e.value] else old(db)
    {
      var stored := Live(db, k, now);
      if stored.Some? && stored.value.value.Text? {
        assert db[k := stored.value] == db;
        return Failed;
      }
      var current := if stored.Some? then stored.value.value.n + 1 else 1;
      if current == 1 {
        db := db[k := Entry(Counter(1), Some(now + ttlMs))];
        return Answered(Outcome(true, limit - 1, now + ttlMs));
      }
      var expireAt := stored.value.expireAt;
      db := db[k := Entry(Counter(current), expireAt)];
      var pttl := if expireAt.Some? then expireAt.value - now else -1;
      var reset := now + if pttl > 0 then pttl else ttlMs;
      if current <= limit {
        return Answered(Outcome(true, Max(0, limit - current), reset));
      }
      return Answered(Outcome(false, 0, reset));
    }

    method RunCommands(k: string, limit: int, durationMs: int, now: int) returns (r: Reply)
      modifies this
      ensures var (e, answer) := CountCommands(Live(old(db), k, now), limit, durationMs, now);
        r == answer && db == if e.Some? then old(db)[k := e.value] else old(db)
    {
      var stored := Live(db, k, now);
      if stored.Some? && stored.value.value.Text? {
        assert db[k := stored.value] == db;
        return Failed;
      }
      var count := if stored.Some? then stored.value.value.n + 1 else 1;
      var expireAt := if stored.Some? then stored.value.expireAt else None;
      var pttl := if expireAt.Some? then expireAt.value - now else -1;
      if count == 1 || pttl < 0 {
        expireAt := Some(now + durationMs);
        pttl := durationMs;
      }
      db := db[k := Entry(Counter(count), expireAt)];
      var resetTs := now + if pttl > 0 then pttl else durationMs;
      if count <= limit {
        return Answered(Outcome(true, Max(0, limit - count), resetTs));
      }
      return Answered(Outcome(false, 0, resetTs));
    }

    method Check(namespace: string, identifier: string, limit: int, durationMs: int, now: int)
      returns (r: Reply)
      ensures (db, r) == Serve(db,
        RateLimitRequests.Check(namespace, identifier, limit, durationMs), now, client)
    {
      var stored := Live(db, Key(client.prefix, namespace, identifier), now);
      var pttl := if stored.Some? && stored.value.expireAt.Some? then stored.value.expireAt.value - now else -1;
      var reset := now + if pttl > 0 then pttl else durationMs;
      if stored.None? || stored.value.value.Text? || pttl <= 0 {
        return Answered(Outcome(true, limit, now + durationMs));
      }
      var count := stored.value.value.n;
      if count < limit {
        return Answered(Outcome(true, Max(0, limit - count), reset));
      }
      return Answered(Outcome(false, 0, reset));
    }

    /** The tokens and refill time a bucket call starts from. */
    method ReadBucket(stored: Option<Entry>, c: Config, now: int) returns (tokens: real, lastRefill: int)
      ensures (tokens, lastRefill) == match Decode(stored, c, now, client.codec)
        case Some(b) => (b.tokens, b.lastRefill)
        case None => (c.capacity, now)
    {
      tokens, lastRefill := c.capacity, now;
      if stored.Some? && stored.value.value.Text? {
        var raw := stored.value.value.s;
        var sep := IndexOf(raw, ':');
        if sep < |raw| {
          tokens, lastRefill := client.codec.read(raw[..sep]), Or(ReadInt(raw[sep + 1..]), now);
        }
      }
    }

    method ConsumeTokenBucket(namespace: string, identifier: string, c: Config, cost: real, now: int)
      returns (r: Reply)
      requires Usable(c)
      modifies this
      ensures (db, r) == Serve(old(db),
        RateLimitRequests.ConsumeTokenBucket(namespace, identifier, c, cost), now, client)
    {
      var k := Key(client.prefix, namespace, identifier);
      var stored := Live(db, k, now);
      if client.eval && Unreadable(stored) { return Failed; }
      var tokens, lastRefill := ReadBucket(stored, c, now);
      ghost var row := Decode(stored, c, now, client.codec);
      var elapsed := Max(0, now - lastRefill);
      if elapsed > 0 {
        var add := Earned(c, elapsed);
        tokens := Min(c.capacity, tokens + add);
        lastRefill := now;
      }
      var answer;
      if tokens >= cost {
        tokens := tokens - cost;
        answer := Outcome(true, tokens.Floor, now + Wait(c, c.capacity - tokens));
      } else {
        answer := Outcome(false, (if tokens < 0.0 then 0.0 else tokens).Floor, now + Wait(c, cost - tokens));
      }
      assert (Bucket(tokens, lastRefill, c.capacity, c.refillTokens, c.refillIntervalMs), answer)
          == Sqlite.ConsumeRow(row, c, cost, now);
      db := db[k := Entry(Text(client.codec.show(tokens) + ":" + PrintInt(lastRefill)), None)];
      return Answered(answer);
    }

    method Reset(namespace: string, identifier: string, ghost now: int)
      modifies this
      ensures (db, Cleared) == Serve(old(db), RateLimitRequests.Reset(namespace, identifier), now, client)
    {
      db := db - {Key(client.prefix, namespace, identifier)};
    }
  }

  function After(run: seq<Timed>, client: Client): Db
    requires AllDefined(run)
  {
    if run == [] then map[]
    else
      var n := |run| - 1;
      Serve(After(run[..n], client), run[n].request, run[n].now, client).0
  }

  function ReplyAt(run: seq<Timed>, client: Client, i: nat): Reply
    requires AllDefined(run) && i < |run|
  {
    Serve(After(run[..i], client), run[i].request, run[i].now, client).1
  }

  // ----- What a key holds -----

  /** Of the resets and answered bucket calls on this key the last was a bucket call: the key holds text. */
  predicate HoldsText(run: seq<Timed>, key: string, client: Client)
    requires AllDefined(run)
  {
    run != []
    && var (n, r) := (|run| - 1, run[|run| - 1].request);
       if Memory.On(r, key) && r.Reset? then false
       else if Memory.On(r, key) && r.ConsumeTokenBucket? && ReplyAt(run, client, n) != Failed then true
       else HoldsText(run[..n], key, client)
  }

  predicate IsText(db: Db, k: string) {
    k in db && db[k].value.Text? && db[k].expireAt.None? && ':' in db[k].value.s
  }

  predicate IsCounterOrGone(db: Db, k: string) {
    k in db ==> db[k].value.Counter?
  }

  lemma PrefixedIsInjective(prefix: string, k: string, l: string)
    requires Prefixed(prefix, k) == Prefixed(prefix, l)
    ensures k == l
  {
    var skip := |prefix + ":"|;
    assert Prefixed(prefix, k)[skip..] == k && Prefixed(prefix, l)[skip..] == l;
  }

  lemma PrefixedIsKey(prefix: string, k: string)
    ensures Prefixed(prefix, k) == Memory.Key(prefix, k)
  {
    assert Prefixed(prefix, k) == prefix + ":" + k;
  }

  /** Stores under different prefixes share some key if and only if their prefixes clash as namespaces do. */
  lemma PrefixesShareIff(p: string, q: string)
    requires p != q
    ensures (exists k: string, l: string :: Prefixed(p, k) == Prefixed(q, l)) <==> Memory.Clash(p, q)
  {
    if k: string, l: string :| Prefixed(p, k) == Prefixed(q, l) {
      PrefixedIsKey(p, k);
      PrefixedIsKey(q, l);
      Memory.KeyIsInjective(p, k, q, l);
    }
    if Memory.Clash(p, q) {
      var ids := Memory.Meeting(p, q);
      PrefixedIsKey(p, ids.0);
      PrefixedIsKey(q, ids.1);
      assert Prefixed(p, ids.0) == Prefixed(q, ids.1);
    }
  }

  lemma EncodedIsText(b: Bucket, codec: Codec)
    ensures Encode(b, codec).value.Text? && ':' in Encode(b, codec).value.s
  {
    assert Encode(b, codec).value.s[|codec.show(b.tokens)|] == ':';
  }

  lemma TextStep(db: Db, t: Timed, key: string, client: Client)
    requires Defined(t.request)
    requires IsText(db, Prefixed(client.prefix, key)) || IsCounterOrGone(db, Prefixed(client.prefix, key))
    ensures var ((after, reply), k) := (Serve(db, t.request, t.now, client), Prefixed(client.prefix, key));
      if Memory.On(t.request, key) && t.request.Reset? then k !in after
      else if Memory.On(t.request, key) && t.request.ConsumeTokenBucket? && reply != Failed then IsText(after, k)
      else (IsText(after, k) <==> IsText(db, k)) && (IsText(after, k) || IsCounterOrGone(after, k))
  {
    var r := t.request;
    if Prefixed(client.prefix, key) == Key(client.prefix, r.namespace, r.identifier) {
      PrefixedIsInjective(client.prefix, key, Memory.Key(r.namespace, r.identifier));
      if r.ConsumeTokenBucket? {
        var stored := Live(db, Prefixed(client.prefix, key), t.now);
        EncodedIsText(Sqlite.ConsumeRow(Decode(stored, r.config, t.now, client.codec), r.config, r.cost, t.now).0,
                      client.codec);
      }
    }
  }

  lemma {:induction false} TextIff(run: seq<Timed>, key: string, client: Client)
    requires AllDefined(run)
    ensures if HoldsText(run, key, client) then IsText(After(run, client), Prefixed(client.prefix, key))
      else IsCounterOrGone(After(run, client), Prefixed(client.prefix, key))
  {
    if run != [] {
      var n := |run| - 1;
      TextIff(run[..n], key, client);
      TextStep(After(run[..n], client), run[n], key, client);
    }
  }

  /** A counter of this key that has not expired. */
  predicate Counting(db: Db, k: string, now: int) {
    Live(db, k, now).Some? && db[k].value.Counter?
  }

  /**
   A call fails if and only if it is a window call on a key that holds text or, with a client that
   offers `eval`, a bucket call on a key that is counting. The memory store answers every call.
   */
  lemma FailsIff(run: seq<Timed>, client: Client, i: nat)
    requires AllDefined(run) && i < |run|
    ensures var (r, key) := (run[i].request, Memory.Key(run[i].request.namespace, run[i].request.identifier));
      ReplyAt(run, client, i) == Failed
      <==> (r.IncrementAndCheck? && HoldsText(run[..i], key, client))
           || (r.ConsumeTokenBucket? && client.eval
               && Counting(After(run[..i], client), Prefixed(client.prefix, key), run[i].now))
    ensures Memory.ReplyAt(run, i) != Failed
  {
    var r := run[i].request;
    TextIff(run[..i], Memory.Key(r.namespace, r.identifier), client);
  }

  // ----- Agreement with the memory store -----

  /** The one limit and the one capacity that a key is given throughout a run. */
  datatype Terms = Terms(limit: int, capacity: real)

  /** The terms of each `namespace:identifier`. Both stores compose it alike, so any namespaces will do. */
  type Plan = string -> Terms

  predicate Follows(r: Request, plan: Plan) {
    var terms := plan(Memory.Key(r.namespace, r.identifier));
    match r
    case IncrementAndCheck(_, _, limit, _) => limit == terms.limit >= 1
    case Check(_, _, limit, _) => limit == terms.limit >= 1
    case ConsumeTokenBucket(_, _, c, _) => c.capacity == terms.capacity
    case Reset(_, _) => true
  }

  /**
   Where memory holds a bucket of the key, this is no window call, and no check of an open window;
   where it holds an open window alone, a client that offers `eval` makes no bucket call.
   */
  predicate KeepsApart(m: Memory.Limiter, r: Request, now: int, eval: bool) {
    var key := Memory.Key(r.namespace, r.identifier);
    var open := !Expired(Get(m.windows, key), now);
    if key in m.buckets then !r.IncrementAndCheck? && (r.Check? ==> !open)
    else r.ConsumeTokenBucket? && eval ==> !open
  }

  /** Memory's counter stops at the limit where Redis's keeps growing. */
  predicate SameWindow(w: Option<Window>, e: Option<Entry>, limit: int, now: int) {
    if Expired(w, now) then e.None?
    else e.Some? && e.value.value.Counter? && e.value.value.n >= 1
         && w.value.count == (if e.value.value.n < limit then e.value.value.n else limit)
         && e.value.expireAt == Some(w.value.reset)
  }

  predicate SameText(b: Option<Bucket>, e: Option<Entry>, capacity: real, codec: Codec) {
    match b
    case None => e.None?
    case Some(m) => e == Some(Encode(m, codec)) && m.capacity == capacity && Exact(codec, m.tokens)
  }

  predicate SameEntries(m: Memory.Limiter, db: Db, k: string, now: int, plan: Plan, client: Client) {
    var stored := Live(db, Prefixed(client.prefix, k), now);
    if k in m.buckets then SameText(Some(m.buckets[k]), stored, plan(k).capacity, client.codec)
    else SameWindow(Get(m.windows, k), stored, plan(k).limit, now)
  }

  ghost predicate Same(m: Memory.Limiter, db: Db, now: int, plan: Plan, client: Client) {
    forall k: string :: SameEntries(m, db, k, now, plan, client)
  }

  /** Entries that agree now agree at every later moment: both windows end together. */
  lemma AgreementLasts(m: Memory.Limiter, db: Db, k: string, now: int, later: int, plan: Plan, client: Client)
    requires SameEntries(m, db, k, now, plan, client) && now <= later
    ensures SameEntries(m, db, k, later, plan, client)
  {
  }

  lemma DecodeEncoded(b: Bucket, c: Config, now: int, codec: Codec)
    requires Exact(codec, b.tokens)
    ensures Decode(Some(Encode(b, codec)), c, now, codec)
      == Some(Bucket(b.tokens, b.lastRefill, c.capacity, c.refillTokens, c.refillIntervalMs))
  {
    var tokens := codec.show(b.tokens);
    var raw := tokens + ":" + PrintInt(b.lastRefill);
    assert raw[..|tokens|] == tokens && raw[|tokens|] == ':' && raw[|tokens| + 1..] == PrintInt(b.lastRefill);
    IndexOfUnique(raw, ':', |tokens|);
    ReadPrintedInt(b.lastRefill);
  }

  lemma WindowStepAgrees(eval: bool, w: Option<Window>, e: Option<Entry>, limit: int, d: int, now: int)
    requires SameWindow(w, e, limit, now) && (e.Some? ==> !Reached(e.value, now)) && limit >= 1
    ensures var (x, y) := (Hit(w, limit, d, now), CountCall(eval, e, limit, d, now));
      y.1 == Answered(x.1) && y.0.Some?
      && SameWindow(Some(x.0), if Reached(y.0.value, now) then None else y.0, limit, now)
    ensures PeekEntry(e, limit, d, now) == Peek(w, limit, d, now)
  {
  }

  /** A limit below one is answered differently from the start: the script counts below zero, the commands refuse. */
  lemma FirstCountAgreesIff(eval: bool, limit: int, d: int, now: int)
    ensures CountCall(eval, None, limit, d, now).1 == Answered(Hit(None, limit, d, now).1) <==> limit >= 1
  {
  }

  /** A check of a key not counting is answered alike if and only if the limit is not negative: Redis reports it raw. */
  lemma FirstCheckAgreesIff(limit: int, d: int, now: int)
    ensures PeekEntry(None, limit, d, now) == Peek(None, limit, d, now) <==> limit >= 0
  {
  }

  /** What a bucket call finds in Redis for what memory holds: a counter counts as no bucket. */
  predicate SameOrCounter(b: Option<Bucket>, e: Option<Entry>, capacity: real, codec: Codec) {
    if b.Some? then SameText(b, e, capacity, codec) else e.Some? ==> e.value.value.Counter?
  }

  lemma BucketStepAgrees(b: Option<Bucket>, e: Option<Entry>, c: Config, cost: real, now: int, codec: Codec)
    requires Usable(c) && SameOrCounter(b, e, c.capacity, codec)
    ensures var (x, y) := (Consume(b, c, cost, now), Sqlite.ConsumeRow(Decode(e, c, now, codec), c, cost, now));
      y.1 == x.1 && Encode(y.0, codec) == Encode(x.0, codec) && x.0.capacity == c.capacity
  {
    if b.Some? { DecodeEncoded(b.value, c, now, codec); }
    Sqlite.ConsumeAgrees(b, Decode(e, c, now, codec), c, cost, now);
  }

  /** The token count this request stores is printed exactly. */
  predicate PrintsExactly(m: Memory.Limiter, r: Request, now: int, codec: Codec)
    requires Defined(r)
  {
    r.ConsumeTokenBucket? ==>
      Exact(codec, Consume(Get(m.buckets, Memory.Key(r.namespace, r.identifier)), r.config, r.cost, now).0.tokens)
  }

  lemma OwnEntriesAgree(m: Memory.Limiter, db: Db, r: Request, now: int, plan: Plan, client: Client)
    requires Defined(r) && Follows(r, plan) && KeepsApart(m, r, now, client.eval)
    requires PrintsExactly(m, r, now, client.codec)
    requires SameEntries(m, db, Memory.Key(r.namespace, r.identifier), now, plan, client)
    ensures Memory.Serve(m, r, now).1 == Serve(db, r, now, client).1
    ensures SameEntries(Memory.Serve(m, r, now).0, Serve(db, r, now, client).0,
                        Memory.Key(r.namespace, r.identifier), now, plan, client)
  {
    var key := Memory.Key(r.namespace, r.identifier);
    var stored := Live(db, Prefixed(client.prefix, key), now);
    if r.ConsumeTokenBucket? {
      if key in m.buckets { EncodedIsText(m.buckets[key], client.codec); }
      BucketStepAgrees(Get(m.buckets, key), stored, r.config, r.cost, now, client.codec);
    } else if !r.Reset? && key !in m.buckets {
      WindowStepAgrees(client.eval, Get(m.windows, key), stored, r.limit, r.durationMs, now);
    }
  }

  lemma OtherKeysStay(db: Db, r: Request, now: int, client: Client, k: string)
    requires Defined(r) && k != Key(client.prefix, r.namespace, r.identifier)
    ensures Live(Serve(db, r, now, client).0, k, now) == Live(db, k, now)
  {
  }

  lemma ServeAgrees(m: Memory.Limiter, db: Db, r: Request, was: int, now: int, plan: Plan, client: Client)
    requires Defined(r) && Follows(r, plan) && KeepsApart(m, r, now, client.eval)
    requires PrintsExactly(m, r, now, client.codec)
    requires Same(m, db, was, plan, client) && was <= now
    ensures Memory.Serve(m, r, now).1 == Serve(db, r, now, client).1
    ensures Same(Memory.Serve(m, r, now).0, Serve(db, r, now, client).0, now, plan, client)
  {
    var own := Memory.Key(r.namespace, r.identifier);
    AgreementLasts(m, db, own, was, now, plan, client);
    OwnEntriesAgree(m, db, r, now, plan, client);
    forall k: string
      ensures SameEntries(Memory.Serve(m, r, now).0, Serve(db, r, now, client).0, k, now, plan, client)
    {
      if k != own {
        AgreementLasts(m, db, k, was, now, plan, client);
        OtherKeyStays(m, db, r, now, k, plan, client);
      }
    }
  }

  lemma OtherKeyStays(m: Memory.Limiter, db: Db, r: Request, now: int, k: string, plan: Plan, client: Client)
    requires Defined(r) && k != Memory.Key(r.namespace, r.identifier)
    requires SameEntries(m, db, k, now, plan, client)
    ensures SameEntries(Memory.Serve(m, r, now).0, Serve(db, r, now, client).0, k, now, plan, client)
  {
    if Prefixed(client.prefix, k) == Key(client.prefix, r.namespace, r.identifier) {
      PrefixedIsInjective(client.prefix, k, Memory.Key(r.namespace, r.identifier));
    }
    Memory.ServeIsLocal(m, r, now, k);
    OtherKeysStay(db, r, now, client, Prefixed(client.prefix, k));
  }

  /** A run that keeps to one plan, under a clock that does not step back, printing exactly. */
  ghost predicate Orderly(run: seq<Timed>, plan: Plan, codec: Codec) {
    AllDefined(run) && ClockMovesOn(run)
    && (forall i :: 0 <= i < |run| ==> Follows(run[i].request, plan))
    && (forall i :: 0 <= i < |run| ==> PrintsExactly(Memory.After(run[..i]), run[i].request, run[i].now, codec))
  }

  /** Call number `i` does not mix the two uses of its key. */
  predicate Unmixed(run: seq<Timed>, i: nat, eval: bool)
    requires AllDefined(run) && i < |run|
  {
    KeepsApart(Memory.After(run[..i]), run[i].request, run[i].now, eval)
  }

  ghost predicate NeverMixed(run: seq<Timed>, n: nat, eval: bool)
    requires AllDefined(run) && n <= |run|
  {
    forall i: nat | i < n :: Unmixed(run, i, eval)
  }

  lemma OrderlyPrefix(run: seq<Timed>, plan: Plan, client: Client, n: nat)
    requires Orderly(run, plan, client.codec) && n <= |run|
    ensures Orderly(run[..n], plan, client.codec)
    ensures NeverMixed(run, n, client.eval) ==> NeverMixed(run[..n], n, client.eval)
  {
    forall i: nat | i < n
      ensures PrintsExactly(Memory.After(run[..n][..i]), run[..n][i].request, run[..n][i].now, client.codec)
      ensures Unmixed(run[..n], i, client.eval) <==> Unmixed(run, i, client.eval)
    {
      assert run[..n][..i] == run[..i];
    }
  }

  lemma {:induction false} StatesAgree(run: seq<Timed>, plan: Plan, client: Client, now: int)
    requires Orderly(run, plan, client.codec) && NeverMixed(run, |run|, client.eval)
    requires run != [] ==> run[|run| - 1].now <= now
    ensures Same(Memory.After(run), After(run, client), now, plan, client)
  {
    if run != [] {
      var n := |run| - 1;
      var (m, db, t) := (Memory.After(run[..n]), After(run[..n], client), run[n].now);
      OrderlyPrefix(run, plan, client, n);
      StatesAgree(run[..n], plan, client, t);
      assert Unmixed(run, n, client.eval);
      ServeAgrees(m, db, run[n].request, t, t, plan, client);
      forall k: string ensures SameEntries(Memory.After(run), After(run, client), k, now, plan, client) {
        AgreementLasts(Memory.After(run), After(run, client), k, t, now, plan, client);
      }
    }
  }

  /** The two stores answer call number `i` alike. */
  predicate AnswersAlike(run: seq<Timed>, client: Client, i: nat)
    requires AllDefined(run) && i < |run|
  {
    ReplyAt(run, client, i) == Memory.ReplyAt(run, i)
  }

  lemma {:induction false} WindowsCount(run: seq<Timed>, key: string)
    requires AllDefined(run)
    ensures key in Memory.After(run).windows ==> Memory.After(run).windows[key].count >= 1
  {
    if run != [] { WindowsCount(run[..|run| - 1], key); }
  }

  /**
   A mixed call is answered differently: a window call on text and, with `eval`, a bucket call on a
   counter fail, and a check under text reports the whole limit where memory reports less.
   */
  lemma MixedCallDiffers(m: Memory.Limiter, db: Db, r: Request, now: int, plan: Plan, client: Client)
    requires Defined(r) && Same(m, db, now, plan, client) && Follows(r, plan)
    requires !KeepsApart(m, r, now, client.eval)
    requires var key := Memory.Key(r.namespace, r.identifier); key in m.windows ==> m.windows[key].count >= 1
    ensures Serve(db, r, now, client).1 != Memory.Serve(m, r, now).1
  {
    assert SameEntries(m, db, Memory.Key(r.namespace, r.identifier), now, plan, client);
  }

  lemma UnmixedAgrees(run: seq<Timed>, plan: Plan, client: Client, i: nat)
    requires Orderly(run, plan, client.codec) && i < |run| && NeverMixed(run, i, client.eval)
    requires Unmixed(run, i, client.eval)
    ensures AnswersAlike(run, client, i)
  {
    OrderlyPrefix(run, plan, client, i);
    StatesAgree(run[..i], plan, client, run[i].now);
    ServeAgrees(Memory.After(run[..i]), After(run[..i], client), run[i].request,
                run[i].now, run[i].now, plan, client);
  }

  lemma MixedDisagrees(run: seq<Timed>, plan: Plan, client: Client, i: nat)
    requires Orderly(run, plan, client.codec) && i < |run| && NeverMixed(run, i, client.eval)
    requires !Unmixed(run, i, client.eval)
    ensures !AnswersAlike(run, client, i)
  {
    OrderlyPrefix(run, plan, client, i);
    StatesAgree(run[..i], plan, client, run[i].now);
    WindowsCount(run[..i], Memory.Key(run[i].request.namespace, run[i].request.identifier));
    MixedCallDiffers(Memory.After(run[..i]), After(run[..i], client), run[i].request, run[i].now, plan, client);
  }

  /** After an unmixed run, the next call is answered alike if and only if it does not mix either. */
  lemma NextAgreesIff(run: seq<Timed>, plan: Plan, client: Client, i: nat)
    requires Orderly(run, plan, client.codec) && i < |run| && NeverMixed(run, i, client.eval)
    ensures AnswersAlike(run, client, i) <==> Unmixed(run, i, client.eval)
  {
    if Unmixed(run, i, client.eval) {
      UnmixedAgrees(run, plan, client, i);
    } else {
      MixedDisagrees(run, plan, client, i);
    }
  }

  ghost predicate AllAlike(run: seq<Timed>, client: Client, n: nat)
    requires AllDefined(run) && n <= |run|
  {
    forall i: nat | i < n :: AnswersAlike(run, client, i)
  }

  lemma OneMoreCall(run: seq<Timed>, client: Client, n: nat)
    requires AllDefined(run) && n < |run|
    ensures AllAlike(run, client, n + 1) <==> AllAlike(run, client, n) && AnswersAlike(run, client, n)
    ensures NeverMixed(run, n + 1, client.eval)
      <==> NeverMixed(run, n, client.eval) && Unmixed(run, n, client.eval)
  {
  }

  /**
   Over a whole run at one plan, of either kind of client, Redis answers every call as memory does if
   and only if the run never mixes the two uses of a key.
   */
  lemma {:induction false} AgreesIffUnmixed(run: seq<Timed>, plan: Plan, client: Client, n: nat)
    requires Orderly(run, plan, client.codec) && n <= |run|
    ensures AllAlike(run, client, n) <==> NeverMixed(run, n, client.eval)
  {
    if n > 0 {
      AgreesIffUnmixed(run, plan, client, n - 1);
      OneMoreCall(run, client, n - 1);
      if NeverMixed(run, n - 1, client.eval) {
        NextAgreesIff(run, plan, client, n - 1);
      }
    }
  }

  /** Redis answers every call of an orderly run that never mixes as the memory store does. */
  lemma RedisAgreesWithMemory(run: seq<Timed>, plan: Plan, client: Client, i: nat)
    requires Orderly(run, plan, client.codec) && NeverMixed(run, |run|, client.eval) && i < |run|
    ensures ReplyAt(run, client, i) == Memory.ReplyAt(run, i)
  {
    AgreesIffUnmixed(run, plan, client, |run|);
    assert AnswersAlike(run, client, i);
  }

  // ----- Beyond one plan -----

  /**
   A caller who changes the limit of an open window is answered alike if and only if nothing was
   refused so far or the new limit is no larger: Redis has counted the refused requests, memory not.
   */
  lemma NewLimitAgreesIff(
      eval: bool, w: Option<Window>, e: Option<Entry>, limit: int, other: int, d: int, now: int)
    requires SameWindow(w, e, limit, now) && limit >= 1 && other >= 1
    ensures CountCall(eval, e, other, d, now).1 == Answered(Hit(w, other, d, now).1)
      <==> Expired(w, now) || e.value.value.n <= limit || other <= limit
  {
  }

  /** A run that shows it: refused once at limit 1, then asking with limit 2. */
  lemma RaisedLimitDisagrees(client: Client) returns (run: seq<Timed>)
    ensures |run| == 3 && AllDefined(run) && ReplyAt(run, client, 2) != Memory.ReplyAt(run, 2)
  {
    var (low, high) := (IncrementAndCheck("n", "i", 1, 1), IncrementAndCheck("n", "i", 2, 1));
    run := [Timed(low, 0), Timed(low, 0), Timed(high, 0)];
    assert run[..2][..1] == run[..1] && run[..1][..0] == [];
    var k := Key(client.prefix, "n", "i");
    assert After(run[..1], client) == map[k := Entry(Counter(1), Some(1))];
    assert After(run[..2], client)[k] == Entry(Counter(2), Some(1));
    assert Memory.After(run[..1]).windows == map[Memory.Key("n", "i") := Window(1, 1)];
    assert Memory.After(run[..2]).windows[Memory.Key("n", "i")] == Window(1, 1);
  }
}
