/** The library object over its two in-memory stores: each operation refines its value-level step. */
module UsefulKey {
  import opened Prelude
  import opened Records
  import opened MemoryKeyStore
  import opened Plugins
  import opened Verification
  import opened KeyLifeCycle
  import Duration
  import KeyBody
  import TokenBucket
  import Limiter = MemoryRateLimit

  datatype Outcome<T> = Ok(result: T) | Failed(code: string)

  /** What `sweepExpired` reports; `remainingHint` is -1 when more may be left, else 0. */
  datatype SweepReport = SweepReport(processed: nat, hardRemoved: nat, remainingHint: int)

  datatype CreateKeyResult = CreateKeyResult(id: string, key: string, metadata: Metadata)

  const DEFAULT_BATCH_SIZE := 100
  const MAX_BATCH_SIZE := 1000

  function BatchSize(option: Option<int>): (n: nat)
    ensures option == None ==> n == 100
    ensures option.Some? ==> 1 <= n <= 1000 && (option.value < 1 ==> n == 1) && (option.value > 1000 ==> n == 1000)
    ensures option.Some? && 1 <= option.value <= 1000 ==> n == option.value
  {
    var wanted := Or(option, DEFAULT_BATCH_SIZE);
    Max(1, if wanted < MAX_BATCH_SIZE then wanted else MAX_BATCH_SIZE)
  }

  /** The records left once everything due has been removed. */
  function Survivors(keys: KeyMaps, olderThan: int): KeyMaps {
    KeyMaps(map h | h in keys.byHash && !DueBy(keys.byHash[h], olderThan) :: keys.byHash[h],
            map id | id in keys.byId && !DueBy(keys.byId[id], olderThan) :: keys.byId[id])
  }

  ghost function Due(keys: KeyMaps, olderThan: int): set<string> {
    set id | id in keys.byId && DueBy(keys.byId[id], olderThan)
  }

  class UsefulKey {
    const config: Config
    const keyStore: MemoryKeyStore
    const rateLimitStore: Limiter.MemoryRateLimitStore

    ghost predicate Valid()
      reads keyStore, keyStore.idToRecord.Values, keyStore.keyHashToRecord.Values
    {
      keyStore.Valid()
    }

    ghost function State(): System
      reads keyStore, rateLimitStore
    {
      System(keyStore.view, rateLimitStore.State())
    }

    constructor (config: Config)
      ensures Valid() && State() == System(EMPTY, Limiter.EMPTY)
      ensures this.config == config
      ensures fresh(keyStore) && fresh(rateLimitStore)
    {
      this.config := config;
      keyStore := new MemoryKeyStore();
      rateLimitStore := new Limiter.MemoryRateLimitStore();
    }

    // ----- Hooks -----

    method RunRateLimiter(p: Plugin, input: VerifyInput, now: int) returns (r: HookResult)
      requires p.RateLimiter? && Refills(p.default) && Refills(input.rateLimit)
      modifies rateLimitStore
      ensures (rateLimitStore.State(), r) == RateLimitHook(p, input, old(rateLimitStore.State()), now)
    {
      var id := p.identify(input);
      if Blank(input.namespace) { return Reject("namespace_required"); }
      if Blank(id) { return Pass; }
      var cfg := if input.rateLimit.Some? then input.rateLimit else p.default;
      if cfg.None? { return Pass; }
      var result;
      match cfg.value {
        case Fixed(limit, duration) =>
          var windowMs := Duration.ParseDuration(duration);
          if windowMs.None? { return Throw; }
          result := rateLimitStore.IncrementAndCheck(input.namespace.value, id.value, limit, windowMs.value, now);
        case Bucket(capacity, refill, interval, cost) =>
          var refillMs := Duration.ParseDuration(interval);
          if refillMs.None? { return Throw; }
          var c := TokenBucket.Config(capacity, refill, refillMs.value as real);
          result := rateLimitStore.ConsumeTokenBucket(input.namespace.value, id.value, c, Or(cost, 1.0), now);
      }
      return if result.success then Pass else Reject(p.reason);
    }

    /** `executePluginHooks` for beforeVerify: the first rejection wins, a throwing hook is skipped. */
    method ExecuteBeforeVerify(input: VerifyInput, clock: nat -> int) returns (rejection: Option<string>)
      requires WellConfigured(config.plugins, input)
      modifies rateLimitStore
      ensures (rateLimitStore.State(), rejection)
           == BeforeHooks(config.plugins, 0, input, old(rateLimitStore.State()), clock)
    {
      for i := 0 to |config.plugins|
        invariant BeforeHooks(config.plugins, 0, input, old(rateLimitStore.State()), clock)
               == BeforeHooks(config.plugins, i, input, rateLimitStore.State(), clock)
      {
        var result := Pass;
        match config.plugins[i] {
          case RateLimiter(_, _, _) => result := RunRateLimiter(config.plugins[i], input, clock(i));
          case IpAccess(allow, deny) => result := IpHook(allow, deny, input.ip);
          case _ =>
        }
        if result.Reject? { return Some(result.reason); }
      }
      return None;
    }

    method ExecuteOnKeyRecordLoaded(input: VerifyInput, r: Record) returns (rejection: Option<string>)
      ensures rejection == LoadedHooks(config.plugins, 0, input, r)
    {
      for i := 0 to |config.plugins|
        invariant LoadedHooks(config.plugins, 0, input, r) == LoadedHooks(config.plugins, i, input, r)
      {
        var result := OnKeyRecordLoaded(config.plugins[i], input, r);
        if result.Reject? { return Some(result.reason); }
      }
      return None;
    }

    method ExecuteOnVerifySuccess(r: Record)
      requires Valid()
      modifies keyStore
      ensures Valid() && keyStore.view == SuccessHooks(config.plugins, 0, old(keyStore.view), r)
    {
      for i := 0 to |config.plugins|
        invariant Valid()
        invariant SuccessHooks(config.plugins, 0, old(keyStore.view), r)
               == SuccessHooks(config.plugins, i, keyStore.view, r)
      {
        if config.plugins[i].UsageLimits? && r.usesRemaining.Some? && r.usesRemaining.value > 0 {
          var updated := new KeyRecord(r.(usesRemaining := Some(r.usesRemaining.value - 1)));
          keyStore.UpdateKey(updated);
        }
      }
    }

    // ----- Operations -----

    method VerifyKey(input: VerifyInput, clock: nat -> int, returnMetadata: bool) returns (verdict: Verdict)
      requires Valid() && WellConfigured(config.plugins, input)
      modifies keyStore, rateLimitStore
      ensures Valid() && (verdict, State()) == Verify(config, old(State()), input, clock, returnMetadata)
    {
      var rejection := ExecuteBeforeVerify(input, clock);
      if rejection.Some? { return Invalid(rejection.value); }
      var record := keyStore.FindKeyByHash(config.hash(input.key));
      if record == null { return Invalid("not_found"); }
      var r := record.Value();
      if Truthy(r.revokedAt) { return Invalid("revoked"); }
      var blocked := ExecuteOnKeyRecordLoaded(input, r);
      if blocked.Some? { return Invalid(blocked.value); }
      if ExpiredAt(r, clock(|config.plugins|)) {
        if config.autoDeleteExpiredKeys {
          keyStore.HardRemoveKeyById(r.id);
        }
        return Invalid("expired");
      }
      if r.usesRemaining.Some? && r.usesRemaining.value <= 0 { return Invalid("usage_exceeded"); }
      ExecuteOnVerifySuccess(r);
      return Verdict.Valid(r.id, r.userId, if returnMetadata then r.metadata else None);
    }

    /** The random bytes or the uuid of the body, and the id when the caller gives none, are arguments. */
    method CreateKey(
        id: string, kind: KeyBody.KeyKind, random: seq<KeyBody.Byte>, uuid: string, input: CreateInput, now: int)
      returns (created: CreateKeyResult)
      requires Valid() && (!kind.Uuid? ==> |random| == Max(0, KeyBody.BodyLength(kind)))
      modifies keyStore
      ensures created.key
        == KeyBody.Rendered(kind, Or(input.prefix, config.keyPrefix), !config.disablePrefix, random, uuid)
      ensures created.id == id && created.metadata == Or(input.metadata, map[])
      ensures Valid() && State() == Apply(config, old(State()), Create(id, created.key, input, now))
      ensures Get(keyStore.view.byId, id) == Get(keyStore.view.byHash, config.hash(created.key)) == Some(Record(
        id, input.userId, if config.disablePrefix then "" else Or(input.prefix, config.keyPrefix),
        config.hash(created.key), now, input.expiresAt, Some(Or(input.metadata, map[])), input.usesRemaining, None))
    {
      var prefix := Or(input.prefix, config.keyPrefix);
      var plaintext := KeyBody.RenderKey(kind, prefix, !config.disablePrefix, random, uuid);
      var fields := CreateKeyRecord(id, plaintext, input, config, now);
      var record := new KeyRecord(fields);
      keyStore.CreateKey(record);
      return CreateKeyResult(fields.id, plaintext, fields.metadata.value);
    }

    method LookUpKey(key: string, now: int) returns (found: Option<Record>)
      requires Valid()
      modifies keyStore
      ensures Valid() && State() == Apply(config, old(State()), GetKey(key, now))
      ensures var stored := Get(old(keyStore.view).byHash, config.hash(key));
        found == if stored.Some? && ExpiredAt(stored.value, now) && config.autoDeleteExpiredKeys then None else stored
    {
      var record := keyStore.FindKeyByHash(config.hash(key));
      if record == null { return None; }
      found := Some(record.Value());
      if ExpiredAt(found.value, now) && config.autoDeleteExpiredKeys {
        keyStore.HardRemoveKeyById(found.value.id);
        found := None;
      }
    }

    method LookUpKeyById(id: string, now: int) returns (found: Option<Record>)
      requires Valid()
      modifies keyStore
      ensures Valid() && State() == Apply(config, old(State()), GetKeyById(id, now))
      ensures var stored := Get(old(keyStore.view).byId, id);
        found == if stored.Some? && ExpiredAt(stored.value, now) && config.autoDeleteExpiredKeys then None else stored
    {
      var record := keyStore.FindKeyById(id);
      if record == null { return None; }
      found := Some(record.Value());
      if ExpiredAt(found.value, now) && config.autoDeleteExpiredKeys {
        keyStore.HardRemoveKeyById(found.value.id);
        found := None;
      }
    }

    method RevokeKey(id: string, now: int)
      requires Valid()
      modifies keyStore, if id in keyStore.idToRecord then {keyStore.idToRecord[id]} else {}
      ensures Valid() && State() == Apply(config, old(State()), KeyLifeCycle.RevokeKey(id, now))
    {
      keyStore.RevokeKeyById(id, now);
    }

    method HardRemoveKey(id: string)
      requires Valid()
      modifies keyStore
      ensures Valid() && State() == Apply(config, old(State()), KeyLifeCycle.HardRemoveKey(id))
    {
      keyStore.HardRemoveKeyById(id);
    }

    /** The read-modify-write shared by every extension that rewrites a record. */
    method WriteBack(id: string, w: Rewrite) returns (updated: Option<Record>)
      requires Valid() && Accepted(w)
      modifies keyStore
      ensures Valid() && keyStore.view == RewriteById(old(keyStore.view), id, w)
      ensures updated == match Get(old(keyStore.view).byId, id) case None => None case Some(r) => Some(Rewritten(r, w))
    {
      var record := keyStore.FindKeyById(id);
      if record == null { return None; }
      var fields := Rewritten(record.Value(), w);
      var copy := new KeyRecord(fields);
      keyStore.UpdateKey(copy);
      return Some(fields);
    }

    method ExtendKeyExpiry(id: string, additionalMs: int, now: int) returns (r: Outcome<Option<int>>)
      requires Valid()
      modifies keyStore
      ensures Valid() && State() == Apply(config, old(State()), RewriteKey(id, ExtendExpiry(additionalMs, now)))
      ensures r == if additionalMs <= 0 then Failed("EXTEND_KEY_EXPIRY_FAILED")
        else match Get(old(keyStore.view).byId, id)
             case None => Ok(None)
             case Some(k) => Ok(Some(Or(k.expiresAt, now) + additionalMs))
    {
      if additionalMs <= 0 { return Failed("EXTEND_KEY_EXPIRY_FAILED"); }
      var updated := WriteBack(id, ExtendExpiry(additionalMs, now));
      return Ok(if updated.None? then None else updated.value.expiresAt);
    }

    method TopUpUses(id: string, amount: int) returns (r: Outcome<int>)
      requires Valid()
      modifies keyStore
      ensures Valid() && State() == Apply(config, old(State()), RewriteKey(id, TopUp(amount)))
      ensures r == if amount <= 0 then Failed("INVALID_ARGUMENT")
        else match Get(old(keyStore.view).byId, id)
             case None => Failed("KEY_NOT_FOUND")
             case Some(k) => Ok(Or(k.usesRemaining, 0) + amount)
    {
      if amount <= 0 { return Failed("INVALID_ARGUMENT"); }
      var updated := WriteBack(id, TopUp(amount));
      if updated.None? { return Failed("KEY_NOT_FOUND"); }
      return Ok(updated.value.usesRemaining.value);
    }

    method SetUsesRemaining(id: string, remaining: Option<int>) returns (r: Outcome<()>)
      requires Valid()
      modifies keyStore
      ensures Valid() && State() == Apply(config, old(State()), RewriteKey(id, SetUses(remaining)))
      ensures r == if id in old(keyStore.view).byId then Ok(()) else Failed("KEY_NOT_FOUND")
    {
      var updated := WriteBack(id, SetUses(remaining));
      return if updated.None? then Failed("KEY_NOT_FOUND") else Ok(());
    }

    method ClearUsageLimit(id: string) returns (r: Outcome<()>)
      requires Valid()
      modifies keyStore
      ensures Valid() && State() == Apply(config, old(State()), RewriteKey(id, ClearUses))
      ensures r == if id in old(keyStore.view).byId then Ok(()) else Failed("KEY_NOT_FOUND")
    {
      var updated := WriteBack(id, ClearUses);
      return if updated.None? then Failed("KEY_NOT_FOUND") else Ok(());
    }

    method DisableKey(id: string) returns (r: Outcome<()>)
      requires Valid()
      modifies keyStore
      ensures Valid() && State() == Apply(config, old(State()), RewriteKey(id, SetDisabled(true)))
      ensures r == if id in old(keyStore.view).byId then Ok(()) else Failed("KEY_NOT_FOUND")
    {
      var updated := WriteBack(id, SetDisabled(true));
      return if updated.None? then Failed("KEY_NOT_FOUND") else Ok(());
    }

    method EnableKey(id: string) returns (r: Outcome<()>)
      requires Valid()
      modifies keyStore
      ensures Valid() && State() == Apply(config, old(State()), RewriteKey(id, SetDisabled(false)))
      ensures r == if id in old(keyStore.view).byId then Ok(()) else Failed("KEY_NOT_FOUND")
    {
      var updated := WriteBack(id, SetDisabled(false));
      return if updated.None? then Failed("KEY_NOT_FOUND") else Ok(());
    }

    // The scope extensions ignore an unknown id.

    method GrantScopes(id: string, metadataKey: string, scopes: seq<string>)
      requires Valid()
      modifies keyStore
      ensures Valid() && State() == Apply(config, old(State()), RewriteKey(id, Grant(metadataKey, scopes)))
    {
      var _ := WriteBack(id, Grant(metadataKey, scopes));
    }

    method RevokeScopes(id: string, metadataKey: string, scopes: seq<string>)
      requires Valid()
      modifies keyStore
      ensures Valid() && State() == Apply(config, old(State()), RewriteKey(id, Ungrant(metadataKey, scopes)))
    {
      var _ := WriteBack(id, Ungrant(metadataKey, scopes));
    }

    method SetScopesTo(id: string, metadataKey: string, scopes: seq<string>)
      requires Valid()
      modifies keyStore
      ensures Valid() && State() == Apply(config, old(State()), RewriteKey(id, SetScopes(metadataKey, scopes)))
    {
      var _ := WriteBack(id, SetScopes(metadataKey, scopes));
    }

    // ----- Sweeping -----

    method SweepExpired(batchSizeOption: Option<int>, olderThan: int)
      returns (report: SweepReport, ghost ids: seq<string>)
      requires Valid()
      modifies keyStore
      ensures Valid() && keyStore.view == RemoveAll(old(keyStore.view), ids)
      ensures forall id | id in ids :: id in Due(old(keyStore.view), olderThan)
      ensures forall i, j :: 0 <= i < j < |ids| ==> ids[i] != ids[j]
      ensures report.processed == report.hardRemoved == |ids| <= BatchSize(batchSizeOption)
      ensures report.remainingHint == if |ids| == BatchSize(batchSizeOption) then -1 else 0
      ensures report.remainingHint == 0 ==> forall id | id in Due(old(keyStore.view), olderThan) :: id in ids
    {
      var batchSize := BatchSize(batchSizeOption);
      var found := keyStore.FindExpiredIds(olderThan, batchSize);
      ids := found;
      var hardRemoved := 0;
      for i := 0 to |found|
        invariant Valid() && hardRemoved == i
        invariant keyStore.view == RemoveAll(old(keyStore.view), found[..i])
      {
        keyStore.HardRemoveKeyById(found[i]);
        hardRemoved := hardRemoved + 1;
        assert found[..i + 1][..i] == found[..i];
      }
      assert found[..|found|] == found;
      report := SweepReport(|found|, hardRemoved, if |found| == batchSize then -1 else 0);
    }

    /** The maintenance loop of a caller: sweep with one cut-off until no more is hinted at. */
    method SweepToCompletion(batchSizeOption: Option<int>, olderThan: int) returns (removed: nat)
      requires Valid() && Inverse(keyStore.view)
      modifies keyStore
      ensures Valid() && keyStore.view == Survivors(old(keyStore.view), olderThan)
      ensures removed == |Due(old(keyStore.view), olderThan)|
    {
      ghost var start := keyStore.view;
      removed := 0;
      var hint := -1;
      while hint == -1
        invariant Valid() && Progress(start, keyStore.view, olderThan, removed)
        invariant hint == -1 || Due(keyStore.view, olderThan) == {}
        decreases if hint == -1 then 1 + |Due(keyStore.view, olderThan)| else 0
      {
        ghost var keys := keyStore.view;
        var report, ids := SweepExpired(batchSizeOption, olderThan);
        SweepRound(start, keys, ids, olderThan, removed);
        removed := removed + report.hardRemoved;
        hint := report.remainingHint;
      }
      NothingDue(keyStore.view, olderThan);
    }
  }

  /** Where a sweep from `start` has got to. */
  ghost predicate Progress(start: KeyMaps, keys: KeyMaps, olderThan: int, removed: nat) {
    Inverse(keys) && Survivors(keys, olderThan) == Survivors(start, olderThan)
    && removed + |Due(keys, olderThan)| == |Due(start, olderThan)|
  }

  lemma SweepRound(start: KeyMaps, keys: KeyMaps, ids: seq<string>, olderThan: int, removed: nat)
    requires Progress(start, keys, olderThan, removed)
    requires forall id | id in ids :: id in Due(keys, olderThan)
    requires forall i, j :: 0 <= i < j < |ids| ==> ids[i] != ids[j]
    ensures Progress(start, RemoveAll(keys, ids), olderThan, removed + |ids|)
    ensures |Due(RemoveAll(keys, ids), olderThan)| + |ids| == |Due(keys, olderThan)|
    ensures (forall id | id in Due(keys, olderThan) :: id in ids) ==> Due(RemoveAll(keys, ids), olderThan) == {}
  {
    RemovingDue(keys, ids, olderThan);
  }

  /** Removing due records leaves the same survivors, and that many fewer due. */
  lemma {:induction false} RemovingDue(keys: KeyMaps, ids: seq<string>, olderThan: int)
    requires Inverse(keys) && (forall id | id in ids :: id in Due(keys, olderThan))
    requires forall i, j :: 0 <= i < j < |ids| ==> ids[i] != ids[j]
    ensures Inverse(RemoveAll(keys, ids))
    ensures Survivors(RemoveAll(keys, ids), olderThan) == Survivors(keys, olderThan)
    ensures forall id :: id in Due(RemoveAll(keys, ids), olderThan) <==> id in Due(keys, olderThan) && id !in ids
    ensures |Due(RemoveAll(keys, ids), olderThan)| + |ids| == |Due(keys, olderThan)|
  {
    if ids != [] {
      var front, last := ids[..|ids| - 1], ids[|ids| - 1];
      assert ids == front + [last] && last in ids && last !in front;
      RemovingDue(keys, front, olderThan);
      RemovingOne(RemoveAll(keys, front), last, olderThan);
    }
  }

  lemma RemovingOne(keys: KeyMaps, id: string, olderThan: int)
    requires Inverse(keys) && id in Due(keys, olderThan)
    ensures var after := Remove(keys, id);
      Inverse(after) && Survivors(after, olderThan) == Survivors(keys, olderThan)
      && Due(after, olderThan) == Due(keys, olderThan) - {id}
      && |Due(after, olderThan)| + 1 == |Due(keys, olderThan)|
  {
    var after := Remove(keys, id);
    RevokeAndRemoveKeepInverse(keys, id, 0);
    assert Due(after, olderThan) == Due(keys, olderThan) - {id};
    assert Survivors(after, olderThan).byId == Survivors(keys, olderThan).byId;
    assert Survivors(after, olderThan).byHash == Survivors(keys, olderThan).byHash;
  }

  lemma NothingDue(keys: KeyMaps, olderThan: int)
    requires Inverse(keys) && Due(keys, olderThan) == {}
    ensures Survivors(keys, olderThan) == keys
  {
    forall id | id in keys.byId ensures !DueBy(keys.byId[id], olderThan) {
      assert id !in Due(keys, olderThan);
    }
    assert Survivors(keys, olderThan).byId == keys.byId;
    assert Survivors(keys, olderThan).byHash == keys.byHash;
  }
}
