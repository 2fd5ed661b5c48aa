/** `verifyKey` on values: the pipeline as the code runs it, and what its verdict means. */
module Verification {
  import opened Prelude
  import opened Records
  import opened MemoryKeyStore
  import opened Plugins
  import opened RateLimitRequests
  import Limiter = MemoryRateLimit

  datatype Config = Config(
    plugins: seq<Plugin>, autoDeleteExpiredKeys: bool, hash: string -> string, keyPrefix: string, disablePrefix: bool)

  /** Everything the library keeps: the key store and the rate-limit store. */
  datatype System = System(keys: KeyMaps, limiter: Limiter.Limiter)

  datatype Verdict =
    | Valid(keyId: string, userId: Option<string>, metadata: Option<Metadata>)
    | Invalid(reason: string)

  /** The beforeVerify hooks from `i` on, up to the first rejection; hook i reads the clock at `clock(i)`. */
  function BeforeHooks(plugins: seq<Plugin>, i: nat, input: VerifyInput, s: Limiter.Limiter, clock: nat -> int)
    : (Limiter.Limiter, Option<string>)
    requires i <= |plugins| && WellConfigured(plugins, input)
    decreases |plugins| - i
  {
    if i == |plugins| then (s, None)
    else
      var (after, result) := BeforeVerify(plugins[i], input, s, clock(i));
      if result.Reject? then (after, Some(result.reason))
      else BeforeHooks(plugins, i + 1, input, after, clock)
  }

  function LoadedHooks(plugins: seq<Plugin>, i: nat, input: VerifyInput, r: Record): Option<string>
    requires i <= |plugins|
    decreases |plugins| - i
  {
    if i == |plugins| then None
    else
      var result := OnKeyRecordLoaded(plugins[i], input, r);
      if result.Reject? then Some(result.reason) else LoadedHooks(plugins, i + 1, input, r)
  }

  /** Each usage plugin writes back the record as it was loaded, less one use. */
  function SuccessHooks(plugins: seq<Plugin>, i: nat, keys: KeyMaps, r: Record): KeyMaps
    requires i <= |plugins|
    decreases |plugins| - i
  {
    if i == |plugins| then keys
    else SuccessHooks(plugins, i + 1, OnVerifySuccess(plugins[i], keys, r), r)
  }

  function OnVerifySuccess(p: Plugin, keys: KeyMaps, r: Record): KeyMaps {
    if p.UsageLimits? && r.usesRemaining.Some? && r.usesRemaining.value > 0
    then Put(keys, r.(usesRemaining := Some(r.usesRemaining.value - 1)))
    else keys
  }

  function Verify(cfg: Config, sys: System, input: VerifyInput, clock: nat -> int, returnMetadata: bool)
    : (Verdict, System)
    requires WellConfigured(cfg.plugins, input)
  {
    var (limiter, rejection) := BeforeHooks(cfg.plugins, 0, input, sys.limiter, clock);
    var s := sys.(limiter := limiter);
    if rejection.Some? then (Invalid(rejection.value), s)
    else
      var found := Get(s.keys.byHash, cfg.hash(input.key));
      if found.None? then (Invalid("not_found"), s)
      else
        var r := found.value;
        var blocked := LoadedHooks(cfg.plugins, 0, input, r);
        if Truthy(r.revokedAt) then (Invalid("revoked"), s)
        else if blocked.Some? then (Invalid(blocked.value), s)
        else if ExpiredAt(r, clock(|cfg.plugins|)) then
          (Invalid("expired"), if cfg.autoDeleteExpiredKeys then s.(keys := Remove(s.keys, r.id)) else s)
        else if UsedUp(r) then (Invalid("usage_exceeded"), s)
        else (Valid(r.id, r.userId, if returnMetadata then r.metadata else None),
              s.(keys := SuccessHooks(cfg.plugins, 0, s.keys, r)))
  }

  /** A hook reaches the rate-limit store with at most one request, one atomic step, and passes on its reply. */
  lemma HookIsOneRequest(p: Plugin, input: VerifyInput, s: Limiter.Limiter, now: int)
    requires p.RateLimiter? && Refills(p.default) && Refills(input.rateLimit)
    ensures var (after, result) := BeforeVerify(p, input, s, now);
      match HookRequest(p, input)
      case None => after == s && (result.Pass? || result.Throw? || result == Reject("namespace_required"))
      case Some(r) =>
        Defined(r) && after == Limiter.Serve(s, r, now).0
        && var reply := Limiter.Serve(s, r, now).1;
           result == if reply.outcome.success then Pass else Reject(p.reason)
  {
  }

  // ----- The verdict: the first objection of the pipeline -----

  function Objection(h: HookResult): Option<string> {
    if h.Reject? then Some(h.reason) else None
  }

  /** What every beforeVerify hook would say, each on the limiter its predecessors left. */
  function BeforeObjections(plugins: seq<Plugin>, i: nat, input: VerifyInput, s: Limiter.Limiter, clock: nat -> int)
    : seq<Option<string>>
    requires i <= |plugins| && WellConfigured(plugins, input)
    decreases |plugins| - i
  {
    if i == |plugins| then []
    else
      var (after, result) := BeforeVerify(plugins[i], input, s, clock(i));
      [Objection(result)] + BeforeObjections(plugins, i + 1, input, after, clock)
  }

  function LoadedObjections(plugins: seq<Plugin>, input: VerifyInput, r: Record): seq<Option<string>> {
    seq(|plugins|, i requires 0 <= i < |plugins| => Objection(OnKeyRecordLoaded(plugins[i], input, r)))
  }

  function If(condition: bool, reason: string): Option<string> {
    if condition then Some(reason) else None
  }

  /** The checks that come before expiry, for a key that was found. */
  function ChecksBeforeExpiry(cfg: Config, sys: System, input: VerifyInput, clock: nat -> int, r: Record)
    : seq<Option<string>>
    requires WellConfigured(cfg.plugins, input)
  {
    BeforeObjections(cfg.plugins, 0, input, sys.limiter, clock)
    + ([If(Truthy(r.revokedAt), "revoked")] + LoadedObjections(cfg.plugins, input, r))
  }

  /** Every check of the pipeline in order, each evaluated on its own. */
  function Pipeline(cfg: Config, sys: System, input: VerifyInput, clock: nat -> int): seq<Option<string>>
    requires WellConfigured(cfg.plugins, input)
  {
    match Get(sys.keys.byHash, cfg.hash(input.key))
    case None => BeforeObjections(cfg.plugins, 0, input, sys.limiter, clock) + [Some("not_found")]
    case Some(r) =>
      ChecksBeforeExpiry(cfg, sys, input, clock, r)
      + [If(ExpiredAt(r, clock(|cfg.plugins|)), "expired"), If(UsedUp(r), "usage_exceeded")]
  }

  function First(checks: seq<Option<string>>): Option<string> {
    if checks == [] then None else if checks[0].Some? then checks[0] else First(checks[1..])
  }

  lemma {:induction false} FirstOfJoin(a: seq<Option<string>>, b: seq<Option<string>>)
    ensures First(a + b) == if First(a).Some? then First(a) else First(b)
  {
    if a == [] {
      assert a + b == b;
    } else {
      FirstOfJoin(a[1..], b);
      assert (a + b)[1..] == a[1..] + b;
    }
  }

  lemma {:induction false} BeforeHooksObject(
      plugins: seq<Plugin>, i: nat, input: VerifyInput, s: Limiter.Limiter, clock: nat -> int)
    requires i <= |plugins| && WellConfigured(plugins, input)
    ensures BeforeHooks(plugins, i, input, s, clock).1 == First(BeforeObjections(plugins, i, input, s, clock))
    decreases |plugins| - i
  {
    if i < |plugins| {
      var (after, result) := BeforeVerify(plugins[i], input, s, clock(i));
      BeforeHooksObject(plugins, i + 1, input, after, clock);
    }
  }

  lemma {:induction false} LoadedHooksObject(plugins: seq<Plugin>, i: nat, input: VerifyInput, r: Record)
    requires i <= |plugins|
    ensures LoadedHooks(plugins, i, input, r) == First(LoadedObjections(plugins, input, r)[i..])
    decreases |plugins| - i
  {
    if i < |plugins| {
      LoadedHooksObject(plugins, i + 1, input, r);
      assert LoadedObjections(plugins, input, r)[i..][1..] == LoadedObjections(plugins, input, r)[i + 1..];
    }
  }

  /** The first objection before expiry is what the loops of the code find. */
  lemma FirstBeforeExpiry(cfg: Config, sys: System, input: VerifyInput, clock: nat -> int, r: Record)
    requires WellConfigured(cfg.plugins, input)
    ensures var before := BeforeHooks(cfg.plugins, 0, input, sys.limiter, clock).1;
      First(ChecksBeforeExpiry(cfg, sys, input, clock, r))
      == if before.Some? then before
         else if Truthy(r.revokedAt) then Some("revoked") else LoadedHooks(cfg.plugins, 0, input, r)
  {
    var before := BeforeObjections(cfg.plugins, 0, input, sys.limiter, clock);
    var (revoked, loaded) := (If(Truthy(r.revokedAt), "revoked"), LoadedObjections(cfg.plugins, input, r));
    BeforeHooksObject(cfg.plugins, 0, input, sys.limiter, clock);
    LoadedHooksObject(cfg.plugins, 0, input, r);
    assert loaded[0..] == loaded;
    FirstOfOne(revoked);
    FirstOfJoin([revoked], loaded);
    FirstOfJoin(before, [revoked] + loaded);
  }

  /**
   For any plugins in any order, a key is valid if and only if no check of the pipeline objects;
   otherwise the reason is the first objection.
   */
  lemma VerdictIsFirstObjection(cfg: Config, sys: System, input: VerifyInput, clock: nat -> int, returnMetadata: bool)
    requires WellConfigured(cfg.plugins, input)
    ensures var (verdict, first) :=
        (Verify(cfg, sys, input, clock, returnMetadata).0, First(Pipeline(cfg, sys, input, clock)));
      (verdict.Valid? <==> first.None?) && (verdict.Invalid? ==> first == Some(verdict.reason))
  {
    match Get(sys.keys.byHash, cfg.hash(input.key))
    case None =>
      BeforeHooksObject(cfg.plugins, 0, input, sys.limiter, clock);
      FirstOfJoin(BeforeObjections(cfg.plugins, 0, input, sys.limiter, clock), [Some("not_found")]);
    case Some(r) =>
      var (expired, used) := (If(ExpiredAt(r, clock(|cfg.plugins|)), "expired"), If(UsedUp(r), "usage_exceeded"));
      FirstBeforeExpiry(cfg, sys, input, clock, r);
      FirstOfJoin(ChecksBeforeExpiry(cfg, sys, input, clock, r), [expired, used]);
      FirstOfTwo(expired, used);
  }

  lemma FirstOfOne(a: Option<string>)
    ensures First([a]) == a
  {
  }

  lemma FirstOfTwo(a: Option<string>, b: Option<string>)
    ensures First([a, b]) == if a.Some? then a else b
  {
    assert [a, b][1..] == [b];
    FirstOfOne(b);
  }

  // ----- What makes a key valid, in the terms of its record -----

  /** No rate limiter rejects, each on the limiter that the ones before it left. */
  predicate LimitersPass(plugins: seq<Plugin>, i: nat, input: VerifyInput, s: Limiter.Limiter, clock: nat -> int)
    requires i <= |plugins| && WellConfigured(plugins, input)
    decreases |plugins| - i
  {
    i < |plugins| ==>
      if plugins[i].RateLimiter? then
        var (after, result) := RateLimitHook(plugins[i], input, s, clock(i));
        !result.Reject? && LimitersPass(plugins, i + 1, input, after, clock)
      else LimitersPass(plugins, i + 1, input, s, clock)
  }

  /** What each other plugin asks of the call and of the record. */
  predicate Admits(p: Plugin, input: VerifyInput, r: Record) {
    match p
    case IpAccess(allow, deny) => AddressAllowed(allow, deny, input.ip)
    case EnableDisable => !IsDisabled(r)
    case PermissionsScopes(k) => forall scope | scope in input.scopes :: HasScope(r, k, scope)
    case _ => true
  }

  /** Neither revoked nor expired nor used up; a time of 0 counts as none. */
  predicate InForce(r: Record, now: int) {
    (r.revokedAt == None || r.revokedAt == Some(0))
    && (r.expiresAt == None || r.expiresAt == Some(0) || now < r.expiresAt.value)
    && (r.usesRemaining == None || r.usesRemaining.value > 0)
  }

  lemma {:induction false} BeforeHooksPassIff(
      plugins: seq<Plugin>, i: nat, input: VerifyInput, s: Limiter.Limiter, clock: nat -> int)
    requires i <= |plugins| && WellConfigured(plugins, input)
    ensures BeforeHooks(plugins, i, input, s, clock).1.None?
      <==> LimitersPass(plugins, i, input, s, clock)
           && forall j :: i <= j < |plugins| && plugins[j].IpAccess? ==>
                AddressAllowed(plugins[j].allow, plugins[j].deny, input.ip)
    decreases |plugins| - i
  {
    if i < |plugins| {
      if !plugins[i].RateLimiter? { BeforeVerifyMeaning(plugins[i], input, s, clock(i)); }
      BeforeHooksPassIff(plugins, i + 1, input, BeforeVerify(plugins[i], input, s, clock(i)).0, clock);
    }
  }

  /** What a plugin asks once the record is loaded. */
  predicate AdmitsLoaded(p: Plugin, input: VerifyInput, r: Record) {
    (p.UsageLimits? ==> r.usesRemaining == None || r.usesRemaining.value > 0) && (!p.IpAccess? ==> Admits(p, input, r))
  }

  lemma {:induction false} LoadedHooksPassIff(plugins: seq<Plugin>, i: nat, input: VerifyInput, r: Record)
    requires i <= |plugins|
    ensures LoadedHooks(plugins, i, input, r).None?
      <==> forall j :: i <= j < |plugins| ==> AdmitsLoaded(plugins[j], input, r)
    decreases |plugins| - i
  {
    if i < |plugins| {
      OnKeyRecordLoadedMeaning(plugins[i], input, r);
      LoadedHooksPassIff(plugins, i + 1, input, r);
    }
  }

  /**
   Under any plugins in any order a key is valid if and only if no rate limiter rejects the call, the
   key is stored and in force, and every other plugin admits it: its address is allowed, it is not
   disabled, and its metadata grants every scope the call requires.
   */
  lemma ValidIff(cfg: Config, sys: System, input: VerifyInput, clock: nat -> int, returnMetadata: bool)
    requires WellConfigured(cfg.plugins, input)
    ensures Verify(cfg, sys, input, clock, returnMetadata).0.Valid?
      <==> LimitersPass(cfg.plugins, 0, input, sys.limiter, clock)
           && cfg.hash(input.key) in sys.keys.byHash
           && var r := sys.keys.byHash[cfg.hash(input.key)];
              InForce(r, clock(|cfg.plugins|))
              && forall j :: 0 <= j < |cfg.plugins| ==> Admits(cfg.plugins[j], input, r)
  {
    BeforeHooksPassIff(cfg.plugins, 0, input, sys.limiter, clock);
    if cfg.hash(input.key) in sys.keys.byHash {
      var r := sys.keys.byHash[cfg.hash(input.key)];
      LoadedHooksPassIff(cfg.plugins, 0, input, r);
      if InForce(r, clock(|cfg.plugins|)) && BeforeHooks(cfg.plugins, 0, input, sys.limiter, clock).1.None? {
        assert forall j :: 0 <= j < |cfg.plugins| ==>
          (AdmitsLoaded(cfg.plugins[j], input, r) <==> Admits(cfg.plugins[j], input, r));
      }
    }
  }

  // ----- The frame: what a verification may change -----

  /** The record after a successful verification. */
  function Spent(cfg: Config, r: Record): Record {
    if r.usesRemaining.Some? && r.usesRemaining.value > 0
       && exists i :: 0 <= i < |cfg.plugins| && cfg.plugins[i].UsageLimits?
    then r.(usesRemaining := Some(r.usesRemaining.value - 1)) else r
  }

  /** However often the usage plugin is listed, one use is spent. */
  lemma {:induction false} OneUseIsSpent(plugins: seq<Plugin>, i: nat, keys: KeyMaps, r: Record)
    requires i <= |plugins|
    ensures SuccessHooks(plugins, i, keys, r) ==
      if r.usesRemaining.Some? && r.usesRemaining.value > 0
         && exists j :: i <= j < |plugins| && plugins[j].UsageLimits?
      then Put(keys, r.(usesRemaining := Some(r.usesRemaining.value - 1))) else keys
    decreases |plugins| - i
  {
    if i < |plugins| {
      OneUseIsSpent(plugins, i + 1, OnVerifySuccess(plugins[i], keys, r), r);
    }
  }

  /** Verifications that overlap, having loaded the same record, spend one use between them. */
  lemma OverlappingVerificationsSpendOnce(plugins: seq<Plugin>, keys: KeyMaps, r: Record)
    ensures SuccessHooks(plugins, 0, SuccessHooks(plugins, 0, keys, r), r) == SuccessHooks(plugins, 0, keys, r)
  {
    OneUseIsSpent(plugins, 0, keys, r);
    OneUseIsSpent(plugins, 0, SuccessHooks(plugins, 0, keys, r), r);
  }

  /** A record written over itself changes nothing. */
  lemma PutSame(keys: KeyMaps, r: Record)
    requires Get(keys.byHash, r.keyHash) == Some(r) && Get(keys.byId, r.id) == Some(r)
    ensures Put(keys, r) == keys
  {
  }

  /**
   An invalid verdict changes no record, except that an expired one is removed exactly when expiry
   is the first objection and the configuration says so; a valid one changes only the uses of the
   record it verified.
   */
  lemma VerifyFrame(cfg: Config, sys: System, input: VerifyInput, clock: nat -> int, returnMetadata: bool)
    requires WellConfigured(cfg.plugins, input) && Inverse(sys.keys)
    ensures var (verdict, after) := Verify(cfg, sys, input, clock, returnMetadata);
      match Get(sys.keys.byHash, cfg.hash(input.key))
      case None => verdict.Invalid? && after.keys == sys.keys
      case Some(r) =>
        if verdict.Valid? then
          verdict == Valid(r.id, r.userId, if returnMetadata then r.metadata else None)
          && after.keys == Put(sys.keys, Spent(cfg, r))
        else
          after.keys ==
            if cfg.autoDeleteExpiredKeys && ExpiredAt(r, clock(|cfg.plugins|))
               && First(ChecksBeforeExpiry(cfg, sys, input, clock, r)).None?
            then Remove(sys.keys, r.id) else sys.keys
  {
    var found := Get(sys.keys.byHash, cfg.hash(input.key));
    if found.Some? {
      FirstBeforeExpiry(cfg, sys, input, clock, found.value);
      OneUseIsSpent(cfg.plugins, 0, sys.keys, found.value);
      PutSame(sys.keys, found.value);
    }
  }

  /** No rate limiter has been configured to reject with the reason that means expiry. */
  predicate ExpiryIsUnambiguous(plugins: seq<Plugin>) {
    forall i :: 0 <= i < |plugins| && plugins[i].RateLimiter? ==> plugins[i].reason != "expired"
  }

  lemma {:induction false} BeforeHooksNeverExpire(
      plugins: seq<Plugin>, i: nat, input: VerifyInput, s: Limiter.Limiter, clock: nat -> int)
    requires i <= |plugins| && WellConfigured(plugins, input) && ExpiryIsUnambiguous(plugins)
    ensures BeforeHooks(plugins, i, input, s, clock).1 != Some("expired")
    decreases |plugins| - i
  {
    if i < |plugins| {
      BeforeHooksNeverExpire(plugins, i + 1, input, BeforeVerify(plugins[i], input, s, clock(i)).0, clock);
    }
  }

  lemma {:induction false} LoadedHooksNeverExpire(plugins: seq<Plugin>, i: nat, input: VerifyInput, r: Record)
    requires i <= |plugins|
    ensures LoadedHooks(plugins, i, input, r) != Some("expired")
    decreases |plugins| - i
  {
    if i < |plugins| { LoadedHooksNeverExpire(plugins, i + 1, input, r); }
  }

  /** A verification removes the record if and only if it answers `expired` and auto-deletion is on. */
  lemma RemovedIffExpired(cfg: Config, sys: System, input: VerifyInput, clock: nat -> int, returnMetadata: bool)
    requires WellConfigured(cfg.plugins, input) && Inverse(sys.keys) && ExpiryIsUnambiguous(cfg.plugins)
    requires Get(sys.keys.byHash, cfg.hash(input.key)).Some?
    ensures var (verdict, after) := Verify(cfg, sys, input, clock, returnMetadata);
      cfg.hash(input.key) !in after.keys.byHash <==> verdict == Invalid("expired") && cfg.autoDeleteExpiredKeys
  {
    VerifyFrame(cfg, sys, input, clock, returnMetadata);
    BeforeHooksNeverExpire(cfg.plugins, 0, input, sys.limiter, clock);
    LoadedHooksNeverExpire(cfg.plugins, 0, input, sys.keys.byHash[cfg.hash(input.key)]);
  }
}
