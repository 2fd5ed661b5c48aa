# UsefulKey: a verified model

A Dafny 4.11 model of UsefulKey, an API-key library: rate limiting over three stores, the buffered
ClickHouse writer, the key life cycle with its built-in plugins, the persistent IP lists, key
generation and duration parsing. `dafny verify dfyconfig.toml` checks everything.

Objects that the library updates in place are classes (`MemoryRateLimitStore`,
`SqliteRateLimitStore`, `RedisRateLimitStore`, `ClickHouseAnalytics`, `MemoryKeyStore` with its
shared record objects, `RedisKeyStore`, `IpAccessControl`, `UsefulKey`). Each method is proved equal
to a step on values; the guarantees are theorems about those steps over whole runs.

| file | models |
|---|---|
| `FixedWindow`, `TokenBucket` | the two limiting algorithms and their guarantees on one key |
| `RateLimitRequests`, `MemoryRateLimit`, `SqliteRateLimit`, `RedisRateLimit` | the three stores, interleaved traffic, agreement of the stores |
| `EventQueue` | the ClickHouse buffer as a protocol between awaits |
| `Records`, `MemoryKeyStore`, `RedisKeyStore` | key records, the two stores and their agreement |
| `Plugins`, `Verification`, `KeyLifeCycle`, `UsefulKey` | hooks, `verifyKey`, whole runs, the library object |
| `Interleaving` | verifications that overlap: limiter hooks, late write-backs, revocation meanwhile |
| `IpAccessStore` | the cached allow and deny lists and their record |
| `KeyBody`, `Duration`, `Decimal`, `Prelude` | key bodies, durations, number printing, shared vocabulary |

## How to read it

- Time is whole milliseconds, passed in as an argument wherever the code reads the clock. Tokens and
  parsed decimals are exact reals.
- A method body of the memory limiter contains no `await`, so one request is one atomic step; the hooks
  of concurrent verifications, in any order, are a run of requests (`Interleaving.HooksAreRequests`).
- Runs of key operations in `KeyLifeCycle` are sequential. `Interleaving` splits a verification into
  its look-up and its write-back and lets them overlap.
- Hashing is an arbitrary function of the configuration, random bytes and fresh identifiers are
  arguments, JSON text and printed fractions are encoders that must be exact on the values in use.
- The iteration order of a map is not fixed; the sweep holds for every order.

## What the proofs found

- A fixed window of limit L admits at most 2L - 1 requests in any interval as long as the window, not
  2L: the request that opens a window counts. The bound is reached (`IntervalBoundIsTight`). It holds
  under any clock when the interval is taken on the latest reading so far (`IntervalBound`). On the
  requests' own readings it holds for a clock that does not step back (`IntervalBoundOnReadings`), and
  for every clock if and only if the limit is at most one: otherwise a clock that keeps falling back lets
  any number through in one interval (`ReadingsBoundedIff`, `ZigzagGrants`).
- A limit of 0 still grants one request per window, the one that opens it; a window keeps to its limit if
  and only if that is positive (`AtMostLimitPerWindow`). Without a positive duration nothing is limited
  (`NoDurationNoLimit`).
- The retry time reported to a refused caller is exact if and only if the bucket can ever hold the cost
  and the clock has not stepped back behind the last refill (`RetryIsExact`). A call that costs more
  than the capacity is told a time and refused then and always (`RetryNeverComes`). The time at which
  a bucket is reported to be full again is exact if and only if the clock has not stepped back, or the
  call cost nothing on a full bucket (`FullIsExact`).
- The memory limiter keeps the capacity of the first call on a key, SQLite and Redis use the capacity
  of each call; they answer alike if and only if the capacity stays the same (`AgreementNeedsCapacity`).
- Two namespaces can share one memory counter if and only if one of them, with a colon appended, begins
  the other (`ConfusedIffClash`); memory and SQLite agree on all runs if and only if no two namespaces
  in use are such a pair (`AgreementIffApart`). A bucket opened with one capacity and called with
  another is told apart by some call (`NewCapacityDisagrees`).
- Redis composes its keys as memory does, so it needs no such condition, but it keeps windows and
  buckets under one key. A call fails if and only if it is a window call on a key whose last reset or
  answered bucket call was a bucket call or, with a client that offers `eval`, a bucket call on a counter
  that has not expired (`FailsIff`). Over a run with one limit and capacity per key it answers every
  call as memory does if and only if no call mixes the two uses (`AgreesIffUnmixed`). A caller who
  raises the limit of an open window after a refusal is answered differently (`NewLimitAgreesIff`), and
  so is a limit below one (`FirstCountAgreesIff`) and a check with a negative limit
  (`FirstCheckAgreesIff`).
- One event whose payload cannot be serialised takes its whole batch with it, because serialisation
  happens after the batch leaves the queue and outside the inner `try`; everything arrives if and only
  if every payload is serialisable (`AllArrivedIffSerialisable`).
- `flushAll` is documented to drain the queue. With successful inserts its promise resolves on a drained
  queue if and only if the call did not meet a running flush; otherwise it resolves at once, with a
  batch still in flight (`FlushAllDrainsIff`, `FlushAllMeetsARunningFlush`). Against a
  server that is down it resolves too, with every event still queued (`FlushAllResolvesWhenDown`).
- Delivery is at least once. The server holds exactly the tracked events if and only if no insert was
  stored while its answer was an error or a timeout (`AtLeastOnce`, `UnheardInsertDuplicates`).
- Revoking an id that Redis does not hold leaves a stub record behind, where memory does nothing
  (`RevokeAgreesIffKnown`); an empty user id comes back as absent (`DecodesWhatItEncoded`).
- A key revoked at clock reading 0 still verifies: the revocation of a valid key holds over every run
  that follows if and only if the clock reads otherwise (`RevocationNeedsTheClock`).
- Overlapping verifications can share a use. A key never loses more uses than it had valid verdicts, and
  exactly as many if and only if no verification wrote back a record it had loaded before another
  one's write (`UsesUnderOverlap`, `OneUseServesTwo`).
- A verification under way can undo a revocation. In the memory store a revocation holds, however
  those under way go on, if and only if at that moment none of them holds a copy of the key that
  another verification has since replaced (`RevocationHoldsIff`, `LateWriteUndoesRevocation`). A hard
  removal, documented as final, holds if and only if none of them holds a copy with uses left to spend
  (`RemovalHoldsIff`, `LateWriteUndoesRemoval`).
- A rate-limit hook throws, and is then skipped, exactly when a namespace is given, the caller is
  identified and the duration of the rule does not parse; nothing is counted then, so such a rule
  blocks nobody who names a namespace (`ThrowsIffUnparsable`).
- The IP cache can disagree with its record after setup in exactly one case: the record existed without
  metadata and the plugin was given non-empty lists (`SetupAgreesIff`). In every other case they agree
  over all undisturbed runs from setup on (`AgreesFromSetup`).

## Model

| member | source | states |
|---|---|---|
| FixedWindow.PeekPredictsHit | src/adapters/ratelimit-store/memory.ts:56-77 | `check` foretells what a counted request at the same moment would be answered |
| FixedWindow.RemainingIsExact | src/adapters/ratelimit-store/memory.ts:39-52 | of the requests before `reset`, exactly `remaining` more are granted and the next is refused |
| FixedWindow.WindowInForce | src/adapters/ratelimit-store/memory.ts:38-52 | the reported reset is the end of the window in force and lies after the reading |
| FixedWindow.ResetInForce | src/adapters/ratelimit-store/memory.ts:38-52 | it lies after the latest reading by at most one duration, under any clock |
| FixedWindow.OneWindow | src/adapters/ratelimit-store/memory.ts:38-52 | requests that all read less than a duration after the first are granted just up to the quota |
| FixedWindow.WindowsAreDisjoint | src/adapters/ratelimit-store/memory.ts:39-42 | under any clock two requests share a window or their windows end at least one duration apart |
| FixedWindow.CounterCountsGrants | src/adapters/ratelimit-store/memory.ts:39-51 | under any clock the stored counter is the number of grants in the open window, between 1 and the quota: the limit, but at least 1 |
| FixedWindow.AtMostQuotaPerWindow | src/adapters/ratelimit-store/memory.ts:30-53 | over a whole run and under any clock no window grants more than the quota |
| FixedWindow.AtMostLimitPerWindow | src/adapters/ratelimit-store/memory.ts:30-53 | no window grants more than the limit if and only if the limit is positive |
| FixedWindow.NoDurationNoLimit | src/adapters/ratelimit-store/memory.ts:38-43 | without a positive duration every request is granted, under a clock that does not step back |
| FixedWindow.RefusalMeansExhausted | src/adapters/ratelimit-store/memory.ts:44-52 | under any clock a request is refused if and only if the open window has granted its whole quota |
| FixedWindow.Opener | src/adapters/ratelimit-store/memory.ts:39-43 | every window was opened by a granted request, whose reading was the latest, one duration before its end |
| FixedWindow.IntervalBound | src/adapters/ratelimit-store/memory.ts:30-53 | under any clock, while the latest reading is in a half-open interval as long as the duration, at most 2 * quota - 1 requests are granted |
| FixedWindow.IntervalBoundOnReadings | src/adapters/ratelimit-store/memory.ts:30-53 | under a clock that does not step back the same holds for the requests' own readings |
| FixedWindow.ReadingsBoundedIff | src/adapters/ratelimit-store/memory.ts:30-53 | on the requests' own readings the bound holds for every clock if and only if the limit is at most one |
| FixedWindow.ZigzagGrants | src/adapters/ratelimit-store/memory.ts:30-53 | for any limit above one, a clock that keeps falling back grants any number of requests at readings in one interval |
| FixedWindow.IntervalBoundIsTight | src/adapters/ratelimit-store/memory.ts:30-53 | that bound is reached for every limit and every duration of two or more milliseconds |
| TokenBucket.AdmissionIsExact | src/adapters/ratelimit-store/memory.ts:80-129 | granted if and only if, counted from every earlier call and itself, what granted cost exceeds the capacity by is covered by refill per interval over the running maximum of the clock |
| TokenBucket.EarnedAtRate | src/adapters/ratelimit-store/memory.ts:102-105 | what a span earns, times the interval, is the span times the refill |
| TokenBucket.GrantedIff | src/adapters/ratelimit-store/memory.ts:102-112 | a call on a stored bucket succeeds if and only if the capacity holds its cost and the tokens and the rate cover it by then |
| TokenBucket.WholeIntervals | src/adapters/ratelimit-store/memory.ts:102-112 | after k intervals exactly the costs up to tokens plus k refills, capped at the capacity, are granted |
| TokenBucket.OneMoment | src/adapters/ratelimit-store/memory.ts:80-129 | at one moment calls of one cost are granted just while their sum stays within the capacity |
| TokenBucket.RemainingMeans | src/adapters/ratelimit-store/memory.ts:112-127 | `remaining` is the whole tokens left by a grant, or found by a refusal and never below 0 |
| TokenBucket.BurstPlusRate | src/adapters/ratelimit-store/memory.ts:80-129 | cost granted over any stretch of a run is at most the capacity and the refill per interval of the time between, even when the clock steps back |
| TokenBucket.LevelIsLeastAllowance | src/adapters/ratelimit-store/memory.ts:102-118 | the tokens a call finds are the smallest allowance since any earlier call |
| TokenBucket.RefillComposes | src/adapters/ratelimit-store/memory.ts:102-108 | refilling at two moments equals refilling once at the later |
| TokenBucket.RefusalsLeaveNoTrace | src/adapters/ratelimit-store/memory.ts:102-128 | deleting any refused calls from a run changes no other answer and no later fill level: lazy refill is continuous refill |
| TokenBucket.RetryShift | src/adapters/ratelimit-store/memory.ts:120-128 | a refused call succeeds from its reset on and not before, shifted by how far the clock had stepped back, and never if it costs more than the capacity |
| TokenBucket.RetryIsExact | src/adapters/ratelimit-store/memory.ts:120-128 | the reported reset is the exact first success if and only if the cost is within the capacity and the clock had not stepped back |
| TokenBucket.RetryNeverComes | src/adapters/ratelimit-store/memory.ts:120-128 | a cost of two on a bucket of one is promised success after one interval and refused at every moment |
| TokenBucket.FullShift | src/adapters/ratelimit-store/memory.ts:110-118 | after a grant the bucket is full from reset on, shifted by how far the clock had stepped back, or at once if the grant left it full |
| TokenBucket.FullIsExact | src/adapters/ratelimit-store/memory.ts:110-118 | after a grant, reset is the first millisecond at which the bucket is full if and only if the clock had not stepped back, or the call cost nothing on a full bucket |
| TokenBucket.RemainingIsExact | src/adapters/ratelimit-store/memory.ts:112-126 | a whole-number cost is granted at once if and only if it is at most `remaining` |
| MemoryRateLimit.KeyIsInjective | src/adapters/ratelimit-store/memory.ts:24-27 | under namespaces that do not clash, different pairs have different keys |
| MemoryRateLimit.ConfusedIffClash | src/adapters/ratelimit-store/memory.ts:24-27 | two namespaces share some key if and only if one with a colon appended begins the other |
| MemoryRateLimit.ColonFreeAreApart | src/adapters/ratelimit-store/memory.ts:24-27 | namespaces without colons never clash |
| MemoryRateLimit.ColonsCollide | src/adapters/ratelimit-store/memory.ts:24-27 | a namespace that extends another past a colon shares keys with it |
| MemoryRateLimit.MemoryRateLimitStore.IncrementAndCheck | src/adapters/ratelimit-store/memory.ts:30-53 | the object's maps and answer follow the window step on the request's key |
| MemoryRateLimit.MemoryRateLimitStore.Check | src/adapters/ratelimit-store/memory.ts:56-77 | answers from the window and changes nothing |
| MemoryRateLimit.MemoryRateLimitStore.ConsumeTokenBucket | src/adapters/ratelimit-store/memory.ts:80-129 | the object's maps and answer follow the bucket step, including the capacity kept from the first call |
| MemoryRateLimit.MemoryRateLimitStore.Reset | src/adapters/ratelimit-store/memory.ts:132-136 | forgets window and bucket of one key and nothing else |
| MemoryRateLimit.KeysAreIsolated | src/adapters/ratelimit-store/memory.ts:25-136 | in every run, whatever configurations and resets it mixes, the entries of a key are those its own requests alone would leave |
| MemoryRateLimit.RepliesAreIsolated | src/adapters/ratelimit-store/memory.ts:25-136 | every request is answered as it would be without the requests on other keys |
| MemoryRateLimit.ResetForgets | src/adapters/ratelimit-store/memory.ts:132-136 | after a reset every later request on its key is answered as by an empty store |
| MemoryRateLimit.RunsAlone | src/adapters/ratelimit-store/memory.ts:36-129 | a key that keeps one configuration and is not reset evolves as the single-key run of its requests |
| MemoryRateLimit.AnsweredAlone | src/adapters/ratelimit-store/memory.ts:30-129 | on such a key each request and check is answered as in the single-key run, so every single-key guarantee carries over |
| MemoryRateLimit.IntervalBoundInterleaved | src/adapters/ratelimit-store/memory.ts:30-53 | the interval bound holds for a key that keeps one configuration, under every interleaving with other traffic and any clock, on the latest reading of its window requests |
| MemoryRateLimit.LatestIsOwn | src/adapters/ratelimit-store/memory.ts:30-37 | under a clock that does not step back that reading is the request's own |
| MemoryRateLimit.BurstPlusRateInterleaved | src/adapters/ratelimit-store/memory.ts:80-129 | from any bucket call on such a key on, the granted cost is at most burst plus rate, under every interleaving and any clock |
| SqliteRateLimit.SqliteRateLimitStore.IncrementAndCheck | src/adapters/ratelimit-store/sqlite.ts:91-136 | the row and the answer follow the window step |
| SqliteRateLimit.SqliteRateLimitStore.Check | src/adapters/ratelimit-store/sqlite.ts:138-170 | answers from the row and changes nothing |
| SqliteRateLimit.SqliteRateLimitStore.ConsumeTokenBucket | src/adapters/ratelimit-store/sqlite.ts:172-257 | the upserted row and the answer follow the bucket step with this call's capacity |
| SqliteRateLimit.SqliteRateLimitStore.Reset | src/adapters/ratelimit-store/sqlite.ts:259-270 | deletes the two rows of the pair and nothing else |
| SqliteRateLimit.ServeAgrees | src/adapters/ratelimit-store/sqlite.ts:91-270 | on agreeing states one request gives the same answer and agreeing states again |
| SqliteRateLimit.SqliteAgreesWithMemory | src/adapters/ratelimit-store/sqlite.ts:91-257 | memory and SQLite answer every call of every run alike, given namespaces that do not clash and one capacity per pair |
| SqliteRateLimit.ClashDisagrees | src/adapters/ratelimit-store/sqlite.ts:91-136 | for any clashing namespaces two window requests tell the stores apart |
| SqliteRateLimit.AgreementIffApart | src/adapters/ratelimit-store/sqlite.ts:91-257 | with one capacity per pair, the stores agree on all runs over a set of namespaces if and only if no two of them clash |
| SqliteRateLimit.AgreementNeedsCapacity | src/adapters/ratelimit-store/sqlite.ts:195-206 | stores with the same tokens answer all further calls alike if and only if memory holds the capacity passed |
| SqliteRateLimit.NewCapacityDisagrees | src/adapters/ratelimit-store/sqlite.ts:195-206 | for any pair and any two capacities, a run of two calls that is answered differently |
| RedisRateLimit.RedisRateLimitStore.IncrementAndCheck | src/adapters/ratelimit-store/redis.ts:74-136 | the stored counter, deadline and answer follow the script or the commands, as the client allows |
| RedisRateLimit.RedisRateLimitStore.RunScript | src/adapters/ratelimit-store/redis.ts:82-114 | the effect of the window script, which fails on a text value |
| RedisRateLimit.RedisRateLimitStore.RunCommands | src/adapters/ratelimit-store/redis.ts:116-136 | the effect of the plain commands, which fail on a text value too |
| RedisRateLimit.RedisRateLimitStore.Check | src/adapters/ratelimit-store/redis.ts:138-165 | answers from counter and deadline and changes nothing |
| RedisRateLimit.RedisRateLimitStore.ConsumeTokenBucket | src/adapters/ratelimit-store/redis.ts:176-282 | the stored text and the answer follow the bucket step on the decoded text; with `eval` the call fails on a value without a colon |
| RedisRateLimit.RedisRateLimitStore.ReadBucket | src/adapters/ratelimit-store/redis.ts:244-253 | the tokens and refill time a bucket call starts from |
| RedisRateLimit.RedisRateLimitStore.Reset | src/adapters/ratelimit-store/redis.ts:285-293 | deletes the one key of the pair |
| RedisRateLimit.DecodeEncoded | src/adapters/ratelimit-store/redis.ts:244-253 | reading `tokens:lastRefill` gives back what was written, for exactly printed tokens |
| RedisRateLimit.WindowStepAgrees | src/adapters/ratelimit-store/redis.ts:88-136 | with either kind of client memory's counter is Redis's capped at the limit, and both answer alike |
| RedisRateLimit.BucketStepAgrees | src/adapters/ratelimit-store/redis.ts:249-282 | a bucket held as text answers and continues as the one in memory |
| RedisRateLimit.FailsIff | src/adapters/ratelimit-store/redis.ts:82-232 | over every run a call fails if and only if it is a window call on a key that holds text or, with `eval`, a bucket call on a live counter |
| RedisRateLimit.PrefixesShareIff | src/adapters/ratelimit-store/redis.ts:25-58 | stores under different prefixes share some key if and only if their prefixes clash as namespaces do |
| RedisRateLimit.RedisAgreesWithMemory | src/adapters/ratelimit-store/redis.ts:74-293 | Redis answers every call of a run as memory does, under any namespaces and moving between windows and buckets, given one limit and capacity per key, no call that mixes the two uses, a clock that does not step back and exact printing |
| RedisRateLimit.MixedCallDiffers | src/adapters/ratelimit-store/redis.ts:74-293 | any single call that mixes the two uses is answered differently |
| RedisRateLimit.AgreesIffUnmixed | src/adapters/ratelimit-store/redis.ts:74-293 | over such a run all calls are answered alike if and only if none mixes: no window call and no check of an open window where memory holds a bucket and, with `eval`, no bucket call where it holds an open window alone |
| RedisRateLimit.FirstCountAgreesIff | src/adapters/ratelimit-store/redis.ts:88-136 | the first request of a window is answered alike if and only if the limit is positive |
| RedisRateLimit.FirstCheckAgreesIff | src/adapters/ratelimit-store/redis.ts:138-165 | a check of a key that is not counting is answered alike if and only if the limit is not negative |
| RedisRateLimit.NewLimitAgreesIff | src/adapters/ratelimit-store/redis.ts:88-136 | a request with another limit in an open window is answered alike if and only if nothing was refused so far or the new limit is no larger |
| RedisRateLimit.RaisedLimitDisagrees | src/adapters/ratelimit-store/redis.ts:88-101 | a reachable run in which the raised limit is answered differently |
| EventQueue.ClickHouseAnalytics.TrackEvent | src/adapters/analytics/clickhouse.ts:95-101 | pushes the event and starts a flush at the batch size |
| EventQueue.ClickHouseAnalytics.RunFlush | src/adapters/analytics/clickhouse.ts:155-162 | does nothing while a flush runs or the queue is empty, else takes the first batch |
| EventQueue.ClickHouseAnalytics.TakeBatch | src/adapters/analytics/clickhouse.ts:161-206 | splices a batch into flight, ends the flush on an empty queue, drops the batch when serialising throws |
| EventQueue.ClickHouseAnalytics.InsertSettled | src/adapters/analytics/clickhouse.ts:172-202 | success acknowledges and continues, failure puts the batch back in front and stops, whether or not the server has stored it |
| EventQueue.RunKeeps | src/adapters/analytics/clickhouse.ts:95-207 | in every interleaving: at most one batch of size 1 to batchSize is in flight, exactly while flushing; the books balance; the queue is shorter than batchSize when no flush runs and the last did not fail |
| EventQueue.ConservedUnlessDropped | src/adapters/analytics/clickhouse.ts:155-207 | acknowledged, in flight and queued together are the tracked history in order, if and only if no batch was dropped |
| EventQueue.AllArrivedIffSerialisable | src/adapters/analytics/clickhouse.ts:162-186 | once flushed, everything tracked has arrived if and only if every payload was serialisable |
| EventQueue.AtLeastOnce | src/adapters/analytics/clickhouse.ts:172-202 | the server holds every acknowledged event, and once serialisable events are flushed every tracked one; exactly those, in order, if and only if no stored insert went unheard |
| EventQueue.UnheardInsertDuplicates | src/adapters/analytics/clickhouse.ts:195-202 | a reachable run that stores an event twice |
| EventQueue.PoisonedBatchIsDropped | src/adapters/analytics/clickhouse.ts:162-171 | an unserialisable event loses its batch |
| EventQueue.FlushDrains | src/adapters/analytics/clickhouse.ts:161-206 | with successful inserts a flush ends, and when it first ends nothing is queued or in flight, whatever finite number of events callers add meanwhile |
| EventQueue.FlushTakesFullBatch | src/adapters/analytics/clickhouse.ts:155-171 | a flush that starts takes a full batch or the whole queue, into flight, or lost if it cannot be serialised |
| EventQueue.AckTakesFullBatch | src/adapters/analytics/clickhouse.ts:161-186 | after a stored and answered insert it takes the next full batch, or ends on an empty queue |
| EventQueue.FlushNeedsJust | src/adapters/analytics/clickhouse.ts:161-206 | with no events added meanwhile a flush needs just as many inserts as the queue has batches, and the one in flight |
| EventQueue.BatchesCover | src/adapters/analytics/clickhouse.ts:161-163 | the number of batches is the quotient of events and batch size, rounded up |
| EventQueue.FirstFailureStops | src/adapters/analytics/clickhouse.ts:172-206 | a flush ends exactly with its first failed insert, nothing in flight, the queue holding the batch, the old queue and what was added meanwhile in that order |
| EventQueue.FlushIsIdleIff | src/adapters/analytics/clickhouse.ts:155-157 | a flush call changes nothing if and only if a flush runs or the queue is empty |
| EventQueue.FlushAllDrainsIff | src/adapters/analytics/clickhouse.ts:155-212 | from every reachable state and under every favourable continuation the promise of `flushAll` resolves at one determined step, and then nothing is left to send if and only if the call met no running flush |
| EventQueue.FlushAllResolvesWhenDown | src/adapters/analytics/clickhouse.ts:155-212 | against a server that is down `flushAll` resolves with the first answer and leaves every event queued, in order |
| EventQueue.FlushAllMeetsARunningFlush | src/adapters/analytics/clickhouse.ts:209-212 | a reachable state in which `flushAll` resolves at once with one event queued and one in flight |
| MemoryKeyStore.PutKeepsInverse | src/adapters/keystore/memory.ts:16-35 | a write keeps the two indexes inverse if and only if it neither changes an id's hash nor takes another id's hash |
| MemoryKeyStore.RevokeAndRemoveKeepInverse | src/adapters/keystore/memory.ts:38-54 | revocation and removal keep the indexes inverse |
| MemoryKeyStore.IndexesStayInverse | src/adapters/keystore/memory.ts:16-54 | in every order of store calls, stale writes included, the indexes stay inverse, given ids and hashes paired for good |
| MemoryKeyStore.StoringKeepsSameObjects | src/adapters/keystore/memory.ts:16-35 | storing a fitting record object keeps both maps on the very same objects |
| MemoryKeyStore.RemovingKeepsSameObjects | src/adapters/keystore/memory.ts:47-53 | so does removing one |
| MemoryKeyStore.ObjectsStayShared | src/adapters/keystore/memory.ts:16-54 | in every order of store calls, stale writes included, both maps hold the very same objects, given ids and hashes paired for good |
| MemoryKeyStore.MemoryKeyStore.CreateKey | src/adapters/keystore/memory.ts:16-19 | stores the object under its hash and id |
| MemoryKeyStore.MemoryKeyStore.UpdateKey | src/adapters/keystore/memory.ts:32-35 | the same, replacing what was there |
| MemoryKeyStore.MemoryKeyStore.FindKeyByHash | src/adapters/keystore/memory.ts:22-24 | the stored object, or null when there is none |
| MemoryKeyStore.MemoryKeyStore.FindKeyById | src/adapters/keystore/memory.ts:27-29 | the stored object, or null when there is none |
| MemoryKeyStore.MemoryKeyStore.RevokeKeyById | src/adapters/keystore/memory.ts:38-45 | assigns the revocation time in place, seen through both maps, no other record changed |
| MemoryKeyStore.MemoryKeyStore.HardRemoveKeyById | src/adapters/keystore/memory.ts:48-53 | removes the record from both maps, an unknown id changes nothing |
| MemoryKeyStore.MemoryKeyStore.FindExpiredIds | src/adapters/keystore/memory.ts:58-67 | distinct due ids up to the limit, and all of them when fewer than the limit |
| RedisKeyStore.DecodesWhatItEncoded | src/adapters/keystore/redis.ts:162-195 | decoding undoes encoding if and only if the user id is not the empty string |
| RedisKeyStore.KeysAreDistinct | src/adapters/keystore/redis.ts:35-41 | record keys and hash keys never collide and are injective |
| RedisKeyStore.PrefixMatters | src/adapters/keystore/redis.ts:35-41 | under another prefix the same id and hash have other keys |
| RedisKeyStore.LookupsAgree | src/adapters/keystore/redis.ts:92-105 | on agreeing states every lookup by id and by hash finds the same record |
| RedisKeyStore.PutAgrees | src/adapters/keystore/redis.ts:72-124 | creating and updating keep the stores in agreement |
| RedisKeyStore.RevokeAgreesIffKnown | src/adapters/keystore/redis.ts:126-129 | revoking keeps the stores in agreement if and only if the id exists |
| RedisKeyStore.RemoveAgrees | src/adapters/keystore/redis.ts:131-142 | hard removal keeps the stores in agreement |
| RedisKeyStore.RedisAgreesWithMemory | src/adapters/keystore/redis.ts:72-142 | after any run of storable, paired records that revokes known ids only, both stores answer all lookups alike |
| RedisKeyStore.RedisKeyStore.UpdateKey | src/adapters/keystore/redis.ts:107-124 | writes the nine fields and the hash-to-id entry |
| RedisKeyStore.RedisKeyStore.FindKeyByHash | src/adapters/keystore/redis.ts:92-99 | follows the hash-to-id entry, an empty id counts as none |
| RedisKeyStore.RedisKeyStore.FindKeyById | src/adapters/keystore/redis.ts:101-105 | decodes the stored fields, an empty hash counts as none |
| RedisKeyStore.RedisKeyStore.RevokeKeyById | src/adapters/keystore/redis.ts:126-129 | sets one field, creating the hash if need be |
| RedisKeyStore.RedisKeyStore.HardRemoveKeyById | src/adapters/keystore/redis.ts:131-142 | deletes the record and the entry of the hash it names |
| Plugins.IpHookMeaning | src/plugins/ip-access-control/keystore.ts:113-137 | a denied address is rejected as denied, with an allow list an unlisted one as not allowed, and every other call passes; without an address there is no check |
| Plugins.BeforeVerifyMeaning | src/core/core-helpers.ts:29-54 | of the plugins that limit no rates only the address check judges a call before look-up, by its own lists |
| Plugins.OnKeyRecordLoadedMeaning | src/plugins/permissions-scopes/index.ts:35-58 | the hook results on a loaded record by its fields: every required scope in the metadata, no `disabled: true`, uses left |
| Plugins.DisableThenEnable | src/plugins/enable-disable/index.ts:12-69 | disabling makes the hook reject, enabling lifts exactly that |
| Plugins.Unique | src/plugins/permissions-scopes/index.ts:13-15 | the same scopes, each once |
| Plugins.UniqueKeepsOrder | src/plugins/permissions-scopes/index.ts:13-15 | in the order of their first occurrence |
| Plugins.ThrowsIffUnparsable | src/plugins/rate-limit/index.ts:29-58 | the hook throws if and only if namespace and identity are given and the duration of the rule in force does not parse, and has counted nothing then |
| Plugins.ScopesAfter | src/plugins/permissions-scopes/index.ts:63-128 | granting, revoking and setting scopes are union, difference and replacement |
| Plugins.ScopesKeepPlaces | src/plugins/permissions-scopes/index.ts:63-112 | distinct scopes held keep their places: a grant appends what is new, a revocation closes the gaps |
| Plugins.WithoutKeepsOrder | src/plugins/permissions-scopes/index.ts:85-97 | the scopes a revocation leaves keep their order |
| Plugins.ScopesDecide | src/plugins/permissions-scopes/index.ts:35-128 | after each of them a call passes if and only if all its scopes are held, and is rejected as insufficient otherwise |
| Plugins.UsesAfter | src/plugins/usage-limits-per-key/index.ts:66-180 | setting, clearing and topping up leave just those uses, and the hook rejects once none is left |
| Plugins.HookRequestIsFor | src/plugins/rate-limit/index.ts:29-61 | a hook asks the store for the namespace of the call and the identity its plugin finds |
| Verification.HookIsOneRequest | src/plugins/rate-limit/index.ts:29-77 | a hook makes at most one request of the rate-limit store, and passes or rejects by its reply |
| Interleaving.HooksAreRequests | src/plugins/rate-limit/index.ts:29-61 | the hooks of concurrent verifications, in any order, leave the store as a run of their requests does |
| Interleaving.PassesAreGrants | src/plugins/rate-limit/index.ts:29-77 | hooks that count on a key pass exactly as often as the store grants |
| Interleaving.PassesAreBounded | src/plugins/rate-limit/index.ts:29-77 | while the latest reading is in an interval as long as the rule's duration, at most 2 * quota - 1 verifications pass the rule of a key, however they interleave and under any clock |
| Interleaving.CostIsGranted | src/plugins/rate-limit/index.ts:49-77 | what the hooks that pass have cost a key is what the store has granted |
| Interleaving.DrawsAreBounded | src/plugins/rate-limit/index.ts:49-77 | from any hook that draws on a key on, the hooks that pass cost at most burst plus rate, however they interleave and under any clock |
| Interleaving.FixedRuleDecides | src/plugins/rate-limit/index.ts:41-48 | a hook under a fixed rule answers as the window of that rule's own limit and parsed duration |
| Interleaving.FixedRuleBounds | src/plugins/rate-limit/index.ts:41-77 | at most 2 * quota - 1 hooks pass a fixed rule in any interval as long as its duration, under any interleaving and clock |
| Interleaving.FixedRuleInOneWindow | src/plugins/rate-limit/index.ts:41-77 | within one duration of the first, just as many hooks pass as the rule's limit says, the others are rejected with the plugin's reason |
| Interleaving.BucketRuleDecides | src/plugins/rate-limit/index.ts:49-58 | a hook under a bucket rule answers as the bucket of that rule's own capacity, refill, parsed interval and cost, 1 by default |
| Interleaving.BucketRuleIsExact | src/plugins/rate-limit/index.ts:49-77 | it passes if and only if what the rule has let through stays within its capacity and refill per interval, under any interleaving and clock |
| Interleaving.BucketRuleAtOnce | src/plugins/rate-limit/index.ts:49-77 | at one moment just as many hooks pass as the rule's capacity pays for |
| Verification.VerdictIsFirstObjection | src/core/usefulkey.ts:369-455 | for any plugins in any order a key is valid if and only if no check objects, else the reason is the first objection in pipeline order |
| Verification.ValidIff | src/core/usefulkey.ts:369-455 | under any plugins a key is valid if and only if no rate limiter rejects, it is stored, unrevoked, unexpired and not used up, its address is allowed, it is not disabled and its metadata grants every required scope |
| Verification.BeforeHooksObject | src/core/core-helpers.ts:29-54 | the early-exit hook loop finds the first rejection, skipping hooks that throw |
| Verification.OneUseIsSpent | src/plugins/usage-limits-per-key/index.ts:39-45 | however often the usage plugin is listed, one use is spent |
| Verification.OverlappingVerificationsSpendOnce | src/plugins/usage-limits-per-key/index.ts:39-45 | two verifications that loaded the same record leave one use spent |
| Interleaving.VerifyIsLoadThenCommit | src/core/usefulkey.ts:393-446 | undisturbed, look-up and write-back are a verification |
| Interleaving.UsesUnderOverlap | src/plugins/usage-limits-per-key/index.ts:39-45 | in every interleaving of look-ups and write-backs a key loses no more uses than it had valid verdicts, and exactly as many if and only if no write-back was of a record loaded before another one |
| Interleaving.OneUseServesTwo | src/plugins/usage-limits-per-key/index.ts:39-45 | a key with one use left gives two overlapping verifications a valid verdict |
| Interleaving.AcceptIsLoad | src/core/usefulkey.ts:393-446 | on record objects a look-up that is let through holds the stored object itself, exactly when it is let through on values |
| Interleaving.WriteBackIsStoreCall | src/plugins/usage-limits-per-key/index.ts:39-45 | on record objects a write-back is what it is on record values |
| Interleaving.RevocationIsStoreCall | src/adapters/keystore/memory.ts:38-45 | so is a revocation |
| Interleaving.RemovalIsStoreCall | src/adapters/keystore/memory.ts:48-53 | and a removal |
| Interleaving.RevocationHoldsIff | src/adapters/keystore/memory.ts:38-45 | a revocation holds under every continuation of the verifications under way if and only if none of them holds a replaced, spendable, unrevoked object of the key |
| Interleaving.LateWriteUndoesRevocation | src/plugins/usage-limits-per-key/index.ts:39-45 | a run in which a late write-back leaves a revoked key unrevoked |
| Interleaving.RemovalHoldsIff | src/core/usefulkey.ts:690-719 | a hard removal holds under every continuation of the verifications under way if and only if none of them holds a spendable object of the key |
| Interleaving.LateWriteUndoesRemoval | src/plugins/usage-limits-per-key/index.ts:39-45 | a run in which a late write-back stores a removed key again |
| Verification.VerifyFrame | src/core/usefulkey.ts:393-455 | a valid verdict reports the record and changes only its uses; an invalid one changes no record, but removes an expired one exactly when no earlier check objects and auto-deletion is on |
| Verification.RemovedIffExpired | src/core/usefulkey.ts:418-427 | the record is gone afterwards if and only if the verdict is `expired` under auto-deletion, unless a rate limiter was configured to use that very reason |
| KeyLifeCycle.OpTracked | src/core/usefulkey.ts:256-813 | every operation turns a watched record into a known successor and keeps the indexes inverse |
| KeyLifeCycle.LookupTracked | src/core/usefulkey.ts:256-307 | a lookup removes the record it finds exactly when that has expired and auto-deletion is on |
| KeyLifeCycle.RewriteKeepsIdentity | src/core/usefulkey.ts:660-665 | no rewriting caller touches id, hash, revocation or another metadata entry; only the usage operations touch the uses and only an extension the expiry |
| KeyLifeCycle.CreatedKeyVerifies | src/core/core-helpers.ts:69-88 | under any plugins a created key is found by its plaintext and verifies with its id, user and metadata unless a plugin objects or its own expiry or uses forbid it |
| KeyLifeCycle.ScopesGovern | src/plugins/permissions-scopes/index.ts:35-128 | after setting, granting or revoking scopes a valid call under the scope plugin asks only for scopes then held |
| KeyLifeCycle.DueIffExpired | src/adapters/keystore/memory.ts:58-67 | the sweep takes what verification takes for expired, and an expiry of 0 besides |
| KeyLifeCycle.ExtensionMovesExpiry | src/core/usefulkey.ts:660-662 | an extension moves the expiry by exactly its length, from the old expiry or from now |
| KeyLifeCycle.RevocationIsPermanent | src/core/usefulkey.ts:400-401 | after a revocation no later verification of that key is valid, whatever operations follow |
| KeyLifeCycle.RevocationNeedsTheClock | src/core/usefulkey.ts:400-401 | under any plugins the revocation of a valid key holds over all runs that follow if and only if it was not stamped with clock reading 0 |
| KeyLifeCycle.UsesAreConserved | src/plugins/usage-limits-per-key/index.ts:15-156 | since a limit was set, valid verifications plus remaining uses equal starting uses plus top-ups, and verifications never exceed them |
| UsefulKey.BatchSize | src/core/usefulkey.ts:752-755 | the batch size used by every sweep: 100 by default, clamped to 1 and 1000 |
| UsefulKey.UsefulKey.RunRateLimiter | src/plugins/rate-limit/index.ts:29-77 | the hook's effect on the rate-limit store and its verdict |
| UsefulKey.UsefulKey.ExecuteBeforeVerify | src/core/core-helpers.ts:29-54 | the hook loop over the real store follows the fold of the hooks |
| UsefulKey.UsefulKey.ExecuteOnKeyRecordLoaded | src/core/core-helpers.ts:29-54 | the first rejection of the loaded record, if any |
| UsefulKey.UsefulKey.VerifyKey | src/core/usefulkey.ts:369-455 | the object's verdict and both stores follow the verification step |
| UsefulKey.UsefulKey.CreateKey | src/core/usefulkey.ts:501-572 | renders the key with the prefix in force or none, stores its whole record under its id and the hash of that key, and returns id, plaintext and metadata |
| UsefulKey.UsefulKey.LookUpKey | src/core/usefulkey.ts:256-272 | finds by plaintext, removing an expired key when so configured |
| UsefulKey.UsefulKey.LookUpKeyById | src/core/usefulkey.ts:294-307 | the same by id |
| UsefulKey.UsefulKey.RevokeKey | src/core/usefulkey.ts:593-608 | revokes in place |
| UsefulKey.UsefulKey.HardRemoveKey | src/core/usefulkey.ts:702-719 | removes the record |
| UsefulKey.UsefulKey.ExtendKeyExpiry | src/core/usefulkey.ts:629-682 | rejects a non-positive extension, reports the new expiry or that the key is unknown |
| UsefulKey.UsefulKey.TopUpUses | src/plugins/usage-limits-per-key/index.ts:100-156 | rejects a non-positive amount and an unknown id, else reports the new remainder |
| UsefulKey.UsefulKey.SetUsesRemaining | src/plugins/usage-limits-per-key/index.ts:66-82 | rewrites the uses, an unknown id is an error |
| UsefulKey.UsefulKey.ClearUsageLimit | src/plugins/usage-limits-per-key/index.ts:164-180 | removes the limit, an unknown id is an error |
| UsefulKey.UsefulKey.DisableKey | src/plugins/enable-disable/index.ts:20-36 | sets the disabled flag, an unknown id is an error |
| UsefulKey.UsefulKey.EnableKey | src/plugins/enable-disable/index.ts:52-68 | clears it, an unknown id is an error |
| UsefulKey.UsefulKey.GrantScopes | src/plugins/permissions-scopes/index.ts:63-76 | rewrites the scopes, an unknown id is ignored |
| UsefulKey.UsefulKey.RevokeScopes | src/plugins/permissions-scopes/index.ts:86-102 | rewrites the scopes, an unknown id is ignored |
| UsefulKey.UsefulKey.SetScopesTo | src/plugins/permissions-scopes/index.ts:112-120 | rewrites the scopes, an unknown id is ignored |
| UsefulKey.UsefulKey.SweepExpired | src/core/usefulkey.ts:740-813 | removes distinct due records, one batch, and hints 0 only when none is left |
| UsefulKey.UsefulKey.SweepToCompletion | src/core/usefulkey.ts:740-813 | sweeping until the hint is 0 terminates and removes exactly the due records, counting each once |
| IpAccessStore.IpAccessControl.SetUp | src/plugins/ip-access-control/keystore.ts:105-112 | creates a missing record, then loads |
| IpAccessStore.IpAccessControl.Run | src/plugins/ip-access-control/keystore.ts:158-226 | each command's effect on cache and record |
| IpAccessStore.IpAccessControl.BeforeVerify | src/plugins/ip-access-control/keystore.ts:113-137 | loads on first use and decides from the cached sets |
| IpAccessStore.SaveAgrees | src/plugins/ip-access-control/keystore.ts:80-101 | saving makes the record agree with the cache whatever it held |
| IpAccessStore.SaveKeepsRest | src/plugins/ip-access-control/keystore.ts:80-101 | saving changes the two lists of the record and nothing else of it, nor any other record |
| IpAccessStore.StoredMeans | src/plugins/ip-access-control/keystore.ts:33-53 | the stored lists are the arrays in the record's metadata |
| IpAccessStore.ReservedRecordStays | src/plugins/ip-access-control/keystore.ts:61-78 | the reserved record is filed under its own hash, never expires or runs out, and no sweep takes it |
| IpAccessStore.LoadsOnce | src/plugins/ip-access-control/keystore.ts:55-59 | a loaded cache is kept whatever the store holds, only one not loaded reads it |
| IpAccessStore.SetupAgreesIff | src/plugins/ip-access-control/keystore.ts:33-78 | setup agrees unless it finds a record without metadata and was given non-empty lists |
| IpAccessStore.CacheAgreesForever | src/plugins/ip-access-control/keystore.ts:33-101 | once cache and record agree, every run of commands keeps them in agreement, while others write elsewhere |
| IpAccessStore.AgreesFromSetup | src/plugins/ip-access-control/keystore.ts:33-137 | from a setup that agrees, every undisturbed run leaves cache and record in agreement and decides every address as the stored lists would |
| IpAccessStore.FirstEditRestoresAgreement | src/plugins/ip-access-control/keystore.ts:80-101 | after a setup that does not agree, the first command that saves restores agreement |
| IpAccessStore.DecidesAsStored | src/plugins/ip-access-control/keystore.ts:113-137 | verification decides as the stored lists would |
| IpAccessStore.RestartKeepsLists | src/plugins/ip-access-control/keystore.ts:105-112 | a new instance on the same store starts with the same sets |
| IpAccessStore.EditsAreExact | src/plugins/ip-access-control/keystore.ts:158-215 | each command edits exactly the set and address it names; clearing empties its set and leaves the other |
| IpAccessStore.AddingAppends | src/plugins/ip-access-control/keystore.ts:159-194 | an address added stands last; one listed already stays where it is |
| IpAccessStore.CacheHoldsSets | src/plugins/ip-access-control/keystore.ts:33-101 | from setup on, whatever is added, loaded or removed, no address is listed twice |
| KeyBody.RandomString | src/utils/crypto.ts:219-228 | one alphabet character per random byte, taken modulo the length |
| KeyBody.PreimagesAreExact | src/utils/crypto.ts:219-228 | the counted byte arrays are exactly those that give the string |
| KeyBody.BodiesAreUniform | src/utils/crypto.ts:219-228 | each string of length n over the alphabet comes from exactly (256 / base)^n byte arrays |
| KeyBody.UnbiasedIffDivides | src/utils/crypto.ts:219-228 | the modulo adds no bias if and only if the alphabet length divides 256 |
| KeyBody.AlphabetsAreUnbiased | src/utils/key.ts:11-14 | the three alphabets have 64, 16 and 32 distinct characters and are unbiased |
| KeyBody.RenderKey | src/utils/key.ts:33-62 | prefix, underscore and body, or the body alone |
| KeyBody.RenderedForm | src/utils/key.ts:33-62 | a key is the prefix in force, an underscore and a body, or the body alone; the body is the uuid, or as many characters as the kind asks for, 32, 64 or 26 by default, all of its alphabet |
| KeyBody.AlphabetsWrittenOut | src/utils/key.ts:11-14 | the characters of each kind, named one class at a time |
| KeyBody.UuidKeysDiffer | src/utils/key.ts:40-61 | two uuids give the same key if and only if they are equal |
| KeyBody.RenderedKeysAreUniform | src/utils/key.ts:33-62 | under any prefix every rendered body of a kind stays equally likely |
| Duration.AcceptsExactlyTheGrammar | src/utils/time.ts:16-28 | a text is accepted if and only if its trimmed form is a number and a unit |
| Duration.ScanSplits | src/utils/time.ts:23 | the number and the rest that the scanner reads make up the text |
| Duration.SplitIsUnique | src/utils/time.ts:23 | the split into number and unit is unique |
| Duration.ReadsTheValue | src/utils/time.ts:29-44 | the value is the exact decimal times the unit, rounded half up |
| Duration.PrintedDurationParses | src/utils/time.ts:16-45 | a printed whole number with a unit in either case, padded with blanks, parses to that many units |
| Duration.SymbolsAreUnits | src/utils/time.ts:32-38 | each unit's own symbol is read as that unit |
| Duration.UnitTexts | src/utils/time.ts:23-38 | exactly `ms`, `s`, `m`, `h` and `d`, in either case, are units |
| Duration.UnitLengths | src/utils/time.ts:32-38 | a second is 1000 milliseconds, a minute 60 seconds, an hour 60 minutes, a day 24 hours |
| Duration.DecimalLaw | src/utils/time.ts:29 | shifted by the places of its fraction a decimal is the number all its digits read |
| Duration.RoundsToNearest | src/utils/time.ts:44 | rounding goes to the nearest whole number, halves up |
| Duration.DecimalParsesToNearest | src/utils/time.ts:16-45 | a decimal with a unit parses to the nearest whole millisecond, halves up |
| Duration.NumbersAreMilliseconds | src/utils/time.ts:17 | a number is its own milliseconds |
| Duration.SpacesByCodePoint | src/utils/time.ts:23 | what trimming removes, by code point |

## Left out

- Databases, Redis and HTTP clients, DDL, readiness probes and client adaptation: a store is a map, a Redis deadline is a stored time at which the key is gone.
- The Postgres, D1 and SQLite key stores, the Postgres and KV rate-limit stores and the HTTP key store: the same logic plus driver or network behaviour.
- Interleavings between the commands of a Redis client without `eval`: each of its calls is one step here; and the key scan behind the Redis sweep.
- Redis clients that report a time to live in whole seconds only.
- SHA-256, HMAC, crypto provider selection and UUIDs: hashing is an arbitrary function and random bytes are an argument.
- ConsumeTokenBucket: requires a positive refill and a positive interval, because the code computes infinities or shrinking buckets otherwise.
- RunRateLimiter: requires the same of configured buckets.
- ExecuteBeforeVerify: requires the same of configured buckets.
- VerifyKey: requires the same of configured buckets.
- FindExpiredIds: does not fix the order in which due ids are met; the sweep holds for every order.
- CreateKey: the body's random bytes, the uuid and the id are arguments; no built-in plugin has a `beforeCreateKey` hook, so that check and the `onKeyCreated` hook are left out.
- Floating-point rounding of tokens and decimals.
- Fractional limits, durations given as fractional numbers, fractional uses and expiry times; numbers that print as NaN, so a record stub in Redis reads a missing creation time as 0 here, and a bucket text that no call wrote is read as if its numbers were there.
- Analytics payloads, console logging, error normalisation and the merging of plugin extensions; store calls that fail.
- User-written plugins and `customGenerateKey`, `customIdGenerator` and `customHashKey` or identification functions that throw.
- Metadata arrays with elements that are not strings, and the static and in-memory IP plugins, which decide as the cached lists do.
- UsesAreConserved: covers sequential runs; `UsesUnderOverlap` says what remains of it when verifications overlap, while nothing else rewrites the key.
- RevocationIsPermanent: covers sequential runs; `RevocationHoldsIff` says when it holds against verifications under way. Other operations that read a record before the revocation and write it back after it are not part of that model.
- RevocationHoldsIff: is about the memory store, whose record objects are shared; stores that hand out copies are not modelled under overlap.
- RemovalHoldsIff: is about the memory store as well, and about continuations in which nobody creates the key again.
- RedisAgreesWithMemory: covers keys under one limit and one capacity; `NewLimitAgreesIff` shows what happens otherwise.
