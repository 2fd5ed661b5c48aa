/** Whole runs of the library's operations, one after another, and what a single key can count on. */
module KeyLifeCycle {
  import opened Prelude
  import opened Records
  import opened MemoryKeyStore
  import opened Plugins
  import opened Verification
  import Limiter = MemoryRateLimit

  datatype CreateInput = CreateInput(
    userId: Option<string>, prefix: Option<string>, expiresAt: Option<int>,
    metadata: Option<Metadata>, usesRemaining: Option<int>)

  function CreateKeyRecord(id: string, plaintext: string, input: CreateInput, cfg: Config, now: int): Record {
    var prefix := if cfg.disablePrefix then "" else Or(input.prefix, cfg.keyPrefix);
    Record(id, input.userId, prefix, cfg.hash(plaintext), now, input.expiresAt,
           Some(Or(input.metadata, map[])), input.usesRemaining, None)
  }

  datatype Op =
    | Create(id: string, plaintext: string, options: CreateInput, now: int)
    | VerifyKey(input: VerifyInput, clock: nat -> int)
    | GetKey(key: string, now: int)
    | GetKeyById(id: string, now: int)
    | RevokeKey(id: string, now: int)
    | HardRemoveKey(id: string)
    | SweepExpired(ids: seq<string>)  // the ids the store's finder returned
    | RewriteKey(id: string, rewrite: Rewrite)

  function RemoveAll(keys: KeyMaps, ids: seq<string>): KeyMaps {
    if ids == [] then keys else Remove(RemoveAll(keys, ids[..|ids| - 1]), ids[|ids| - 1])
  }

  /** Looking a key up removes it when it has expired and the configuration says so. */
  function AfterLookup(keys: KeyMaps, found: Option<Record>, now: int, cfg: Config): KeyMaps {
    if found.Some? && ExpiredAt(found.value, now) && cfg.autoDeleteExpiredKeys
    then Remove(keys, found.value.id) else keys
  }

  function RewriteById(keys: KeyMaps, id: string, w: Rewrite): KeyMaps {
    if id in keys.byId && Accepted(w) then Put(keys, Rewritten(keys.byId[id], w)) else keys
  }

  predicate Runnable(cfg: Config, op: Op) {
    op.VerifyKey? ==> WellConfigured(cfg.plugins, op.input)
  }

  function Apply(cfg: Config, sys: System, op: Op): System
    requires Runnable(cfg, op)
  {
    match op
    case Create(id, plaintext, options, now) =>
      sys.(keys := Put(sys.keys, CreateKeyRecord(id, plaintext, options, cfg, now)))
    case VerifyKey(input, clock) => Verify(cfg, sys, input, clock, false).1
    case GetKey(key, now) => sys.(keys := AfterLookup(sys.keys, Get(sys.keys.byHash, cfg.hash(key)), now, cfg))
    case GetKeyById(id, now) => sys.(keys := AfterLookup(sys.keys, Get(sys.keys.byId, id), now, cfg))
    case RevokeKey(id, now) => sys.(keys := Revoke(sys.keys, id, now))
    case HardRemoveKey(id) => sys.(keys := Remove(sys.keys, id))
    case SweepExpired(ids) => sys.(keys := RemoveAll(sys.keys, ids))
    case RewriteKey(id, w) => sys.(keys := RewriteById(sys.keys, id, w))
  }

  ghost predicate AllRunnable(cfg: Config, ops: seq<Op>) {
    forall i :: 0 <= i < |ops| ==> Runnable(cfg, ops[i])
  }

  function After(cfg: Config, sys: System, ops: seq<Op>): System
    requires AllRunnable(cfg, ops)
  {
    if ops == [] then sys else Apply(cfg, After(cfg, sys, ops[..|ops| - 1]), ops[|ops| - 1])
  }

  // ----- One key through every operation -----

  /** A created key is new to the store, and never takes up the id or the hash of the key under watch. */
  predicate Fresh(cfg: Config, keys: KeyMaps, op: Op, id: string, h: string) {
    op.Create? ==>
      op.id != id && cfg.hash(op.plaintext) != h
      && op.id !in keys.byId && cfg.hash(op.plaintext) !in keys.byHash
  }

  /** The state of one key: `Some(r)` while its record is stored under this id and this hash. */
  function Watch(keys: KeyMaps, id: string): Option<Record> {
    Get(keys.byId, id)
  }

  /** The indexes are inverse, and id and hash, as far as they occur, occur together. */
  ghost predicate Tracked(keys: KeyMaps, id: string, h: string) {
    Inverse(keys)
    && (id in keys.byId ==> keys.byId[id].keyHash == h)
    && (h in keys.byHash ==> keys.byHash[h].id == id)
  }

  /** What one operation may make of the record under watch. */
  function Successor(cfg: Config, sys: System, op: Op, r: Record): Option<Record>
    requires Runnable(cfg, op)
  {
    match op
    case Create(_, _, _, _) => Some(r)
    case VerifyKey(input, clock) =>
      if cfg.hash(input.key) != r.keyHash then Some(r)
      else
        var (verdict, after) := Verify(cfg, sys, input, clock, false);
        if verdict.Valid? then Some(Spent(cfg, r)) else Watch(after.keys, r.id)
    case RevokeKey(i, now) => Some(if i == r.id then r.(revokedAt := Some(now)) else r)
    case RewriteKey(i, w) => Some(if i == r.id && Accepted(w) then Rewritten(r, w) else r)
    case GetKey(key, now) =>
      if cfg.hash(key) == r.keyHash && ExpiredAt(r, now) && cfg.autoDeleteExpiredKeys then None else Some(r)
    case GetKeyById(i, now) =>
      if i == r.id && ExpiredAt(r, now) && cfg.autoDeleteExpiredKeys then None else Some(r)
    case HardRemoveKey(i) => if i == r.id then None else Some(r)
    case SweepExpired(ids) => if r.id in ids then None else Some(r)
  }

  lemma RemoveTracked(keys: KeyMaps, gone: string, id: string, h: string)
    requires Tracked(keys, id, h)
    ensures Tracked(Remove(keys, gone), id, h)
    ensures Watch(Remove(keys, gone), id) == if gone == id then None else Watch(keys, id)
  {
  }

  lemma {:induction false} RemoveAllTracked(keys: KeyMaps, ids: seq<string>, id: string, h: string)
    requires Tracked(keys, id, h)
    ensures Tracked(RemoveAll(keys, ids), id, h)
    ensures Watch(RemoveAll(keys, ids), id) == if id in ids then None else Watch(keys, id)
  {
    if ids != [] {
      var front, last := ids[..|ids| - 1], ids[|ids| - 1];
      RemoveAllTracked(keys, front, id, h);
      RemoveTracked(RemoveAll(keys, front), last, id, h);
      assert ids == front + [last];
    }
  }

  lemma PutTracked(keys: KeyMaps, r: Record, id: string, h: string)
    requires Tracked(keys, id, h) && Fits(keys, r) && (r.id == id <==> r.keyHash == h)
    ensures Tracked(Put(keys, r), id, h)
    ensures Watch(Put(keys, r), id) == if r.id == id then Some(r) else Watch(keys, id)
  {
    PutKeepsInverse(keys, r);
  }

  /** A rewrite touches no more than it names: never id, hash or revocation. */
  lemma RewriteKeepsIdentity(r: Record, w: Rewrite)
    ensures var n := Rewritten(r, w);
      n == r.(expiresAt := n.expiresAt, metadata := n.metadata, usesRemaining := n.usesRemaining)
    ensures !w.ExtendExpiry? ==> Rewritten(r, w).expiresAt == r.expiresAt
    ensures !w.SetUses? && !w.TopUp? && !w.ClearUses? ==> Rewritten(r, w).usesRemaining == r.usesRemaining
    ensures forall name: string | name != EntryOf(w) :: Entry(Rewritten(r, w), name) == Entry(r, name)
  {
  }

  /** The metadata entry a rewrite is about. */
  function EntryOf(w: Rewrite): string {
    match w
    case Grant(k, _) => k
    case Ungrant(k, _) => k
    case SetScopes(k, _) => k
    case _ => "disabled"
  }

  lemma TrackedPair(keys: KeyMaps, id: string, h: string, other: string)
    requires Tracked(keys, id, h) && other in keys.byId
    ensures other == id <==> keys.byId[other].keyHash == h
  {
  }

  lemma VerifyTracked(cfg: Config, sys: System, input: VerifyInput, clock: nat -> int, id: string, h: string)
    requires WellConfigured(cfg.plugins, input) && Tracked(sys.keys, id, h)
    ensures var (verdict, after) := Verify(cfg, sys, input, clock, false);
      Tracked(after.keys, id, h)
      && (cfg.hash(input.key) != h ==> Watch(after.keys, id) == Watch(sys.keys, id))
      && (cfg.hash(input.key) == h && verdict.Valid? ==>
            Watch(sys.keys, id).Some? && Watch(after.keys, id) == Some(Spent(cfg, Watch(sys.keys, id).value)))
      && (cfg.hash(input.key) == h && verdict.Invalid? ==>
            Watch(after.keys, id) == Watch(sys.keys, id) || Watch(after.keys, id) == None)
  {
    VerifyFrame(cfg, sys, input, clock, false);
    var found := Get(sys.keys.byHash, cfg.hash(input.key));
    if found.Some? {
      var r := found.value;
      assert Get(sys.keys.byId, r.id) == Some(r) && r.keyHash == cfg.hash(input.key);
      TrackedPair(sys.keys, id, h, r.id);
      PutTracked(sys.keys, Spent(cfg, r), id, h);
      RemoveTracked(sys.keys, r.id, id, h);
    }
  }

  /** A lookup removes the record it finds exactly when that has expired and the configuration says so. */
  lemma LookupTracked(keys: KeyMaps, found: Option<Record>, now: int, cfg: Config, id: string, h: string)
    requires Tracked(keys, id, h)
    ensures Tracked(AfterLookup(keys, found, now, cfg), id, h)
    ensures Watch(AfterLookup(keys, found, now, cfg), id)
         == if found.Some? && found.value.id == id && ExpiredAt(found.value, now) && cfg.autoDeleteExpiredKeys
            then None else Watch(keys, id)
  {
  }

  /** Every operation keeps the key tracked, and turns its record into its successor or leaves it absent. */
  lemma OpTracked(cfg: Config, sys: System, op: Op, id: string, h: string)
    requires Runnable(cfg, op) && Tracked(sys.keys, id, h) && Fresh(cfg, sys.keys, op, id, h)
    ensures Tracked(Apply(cfg, sys, op).keys, id, h)
    ensures Watch(Apply(cfg, sys, op).keys, id)
         == if Watch(sys.keys, id).None? then None else Successor(cfg, sys, op, Watch(sys.keys, id).value)
  {
    match op
    case Create(i, plaintext, options, now) =>
      PutTracked(sys.keys, CreateKeyRecord(i, plaintext, options, cfg, now), id, h);
    case VerifyKey(input, clock) => VerifyTracked(cfg, sys, input, clock, id, h);
    case GetKey(key, now) => LookupTracked(sys.keys, Get(sys.keys.byHash, cfg.hash(key)), now, cfg, id, h);
    case GetKeyById(i, now) => LookupTracked(sys.keys, Get(sys.keys.byId, i), now, cfg, id, h);
    case RevokeKey(i, now) =>
      if i in sys.keys.byId {
        TrackedPair(sys.keys, id, h, i);
        PutTracked(sys.keys, sys.keys.byId[i].(revokedAt := Some(now)), id, h);
      }
    case HardRemoveKey(i) => RemoveTracked(sys.keys, i, id, h);
    case SweepExpired(ids) => RemoveAllTracked(sys.keys, ids, id, h);
    case RewriteKey(i, w) =>
      if i in sys.keys.byId {
        TrackedPair(sys.keys, id, h, i);
        RewriteKeepsIdentity(sys.keys.byId[i], w);
        PutTracked(sys.keys, Rewritten(sys.keys.byId[i], w), id, h);
      }
  }

  // ----- Creating and extending -----

  /** A created key verifies as created, unless a plugin objects or its own expiry or uses forbid it. */
  lemma CreatedKeyVerifies(cfg: Config, sys: System, op: Op, input: VerifyInput, clock: nat -> int)
    requires op.Create? && WellConfigured(cfg.plugins, input)
    requires cfg.hash(input.key) == cfg.hash(op.plaintext)
    ensures var r := CreateKeyRecord(op.id, op.plaintext, op.options, cfg, op.now);
      var (verdict, objection) := (Verify(cfg, Apply(cfg, sys, op), input, clock, true).0,
                                   First(ChecksBeforeExpiry(cfg, sys, input, clock, r)));
      if objection.Some? then verdict == Invalid(objection.value)
      else if Truthy(op.options.expiresAt) && op.options.expiresAt.value <= clock(|cfg.plugins|) then
        verdict == Invalid("expired")
      else if op.options.usesRemaining.Some? && op.options.usesRemaining.value <= 0 then
        verdict == Invalid("usage_exceeded")
      else verdict == Valid(op.id, op.options.userId, Some(Or(op.options.metadata, map[])))
  {
    var r := CreateKeyRecord(op.id, op.plaintext, op.options, cfg, op.now);
    assert Get(Apply(cfg, sys, op).keys.byHash, cfg.hash(input.key)) == Some(r);
    FirstBeforeExpiry(cfg, sys, input, clock, r);
  }

  /** Verification and sweep agree on what has expired, but for an expiry of 0: that is none, and due. */
  lemma DueIffExpired(r: Record, t: int)
    ensures DueBy(r, t) <==> ExpiredAt(r, t) || (r.expiresAt == Some(0) && t >= 0)
    ensures ExpiredAt(r, t) <==> exists e: int :: r.expiresAt == Some(e) && e != 0 && e <= t
  {
  }

  /** An extension moves the expiry by exactly its length, from the old expiry or from now. */
  lemma ExtensionMovesExpiry(r: Record, add: int, now: int, t: int)
    requires Or(r.expiresAt, now) + add != 0
    ensures ExpiredAt(Rewritten(r, ExtendExpiry(add, now)), t) <==> t - add >= Or(r.expiresAt, now)
    ensures Truthy(r.expiresAt) ==> (ExpiredAt(Rewritten(r, ExtendExpiry(add, now)), t) <==> ExpiredAt(r, t - add))
  {
  }

  /**
   Once the scopes of a key are set, calls under a scope plugin are valid only for scopes in that set;
   so they are after granting for scopes held or granted, and after revoking for those held and kept.
   */
  lemma ScopesGovern(
      cfg: Config, sys: System, id: string, w: Rewrite, input: VerifyInput, clock: nat -> int, returnMetadata: bool)
    requires Inverse(sys.keys) && id in sys.keys.byId && cfg.hash(input.key) == sys.keys.byId[id].keyHash
    requires WellConfigured(cfg.plugins, input) && (w.SetScopes? || w.Grant? || w.Ungrant?)
    requires PermissionsScopes(w.metadataKey) in cfg.plugins
    requires Verify(cfg, Apply(cfg, sys, RewriteKey(id, w)), input, clock, returnMetadata).0.Valid?
    ensures forall s | s in input.scopes ::
      var held := HasScope(sys.keys.byId[id], w.metadataKey, s);
      if w.SetScopes? then s in w.scopes else if w.Grant? then held || s in w.scopes else held && s !in w.scopes
  {
    var after := Apply(cfg, sys, RewriteKey(id, w));
    var r := sys.keys.byId[id];
    ValidIff(cfg, after, input, clock, returnMetadata);
    RewriteKeepsIdentity(r, w);
    assert after.keys.byHash[cfg.hash(input.key)] == Rewritten(r, w);
    assert Admits(PermissionsScopes(w.metadataKey), input, Rewritten(r, w));
    forall s | s in input.scopes ensures HasScope(Rewritten(r, w), w.metadataKey, s) {
    }
    forall s | s in input.scopes
      ensures var held := HasScope(r, w.metadataKey, s);
        if w.SetScopes? then s in w.scopes else if w.Grant? then held || s in w.scopes else held && s !in w.scopes
    {
      ScopesAfter(r, w.metadataKey, w.scopes, s);
    }
  }

  // ----- Whole runs -----

  /** No operation of the run creates this key a second time, or reuses any stored id or hash. */
  ghost predicate FreshRun(cfg: Config, sys: System, ops: seq<Op>, id: string, h: string)
    requires AllRunnable(cfg, ops)
  {
    ops == [] ||
    (FreshRun(cfg, sys, ops[..|ops| - 1], id, h)
     && Fresh(cfg, After(cfg, sys, ops[..|ops| - 1]).keys, ops[|ops| - 1], id, h))
  }

  predicate RevokedOrGone(keys: KeyMaps, id: string) {
    Watch(keys, id).Some? ==> Truthy(Watch(keys, id).value.revokedAt)
  }

  lemma StaysRevokedStep(cfg: Config, sys: System, op: Op, id: string, h: string)
    requires Runnable(cfg, op) && Fresh(cfg, sys.keys, op, id, h) && (op.RevokeKey? ==> op.now != 0)
    requires Tracked(sys.keys, id, h) && RevokedOrGone(sys.keys, id)
    ensures Tracked(Apply(cfg, sys, op).keys, id, h) && RevokedOrGone(Apply(cfg, sys, op).keys, id)
  {
    OpTracked(cfg, sys, op, id, h);
    match op
    case RewriteKey(_, w) =>
      if Watch(sys.keys, id).Some? { RewriteKeepsIdentity(Watch(sys.keys, id).value, w); }
    case GetKey(key, now) => LookupTracked(sys.keys, Get(sys.keys.byHash, cfg.hash(key)), now, cfg, id, h);
    case GetKeyById(i, now) => LookupTracked(sys.keys, Get(sys.keys.byId, i), now, cfg, id, h);
    case VerifyKey(input, clock) => VerifyTracked(cfg, sys, input, clock, id, h);
    case _ =>
  }

  lemma {:induction false} StaysRevoked(cfg: Config, sys: System, ops: seq<Op>, id: string, h: string)
    requires AllRunnable(cfg, ops) && FreshRun(cfg, sys, ops, id, h)
    requires Tracked(sys.keys, id, h) && RevokedOrGone(sys.keys, id)
    requires forall i :: 0 <= i < |ops| && ops[i].RevokeKey? ==> ops[i].now != 0
    ensures Tracked(After(cfg, sys, ops).keys, id, h) && RevokedOrGone(After(cfg, sys, ops).keys, id)
  {
    if ops != [] {
      var before, op := ops[..|ops| - 1], ops[|ops| - 1];
      StaysRevoked(cfg, sys, before, id, h);
      StaysRevokedStep(cfg, After(cfg, sys, before), op, id, h);
    }
  }

  lemma RevokedIsInvalid(
      cfg: Config, sys: System, id: string, h: string, input: VerifyInput, clock: nat -> int, returnMetadata: bool)
    requires Tracked(sys.keys, id, h) && RevokedOrGone(sys.keys, id)
    requires WellConfigured(cfg.plugins, input) && cfg.hash(input.key) == h
    ensures Verify(cfg, sys, input, clock, returnMetadata).0.Invalid?
  {
  }

  /** A stored key of an inverse store is tracked under its own hash. */
  lemma StoredIsTracked(keys: KeyMaps, id: string)
    requires Inverse(keys) && id in keys.byId
    ensures Tracked(keys, id, keys.byId[id].keyHash)
  {
  }

  /** Operations that reuse nothing of this key, and revoke only by a running clock. */
  ghost predicate Lawful(cfg: Config, sys: System, ops: seq<Op>, id: string, h: string) {
    AllRunnable(cfg, ops) && FreshRun(cfg, sys, ops, id, h)
    && forall i :: 0 <= i < |ops| && ops[i].RevokeKey? ==> ops[i].now != 0
  }

  /**
   Revocation is permanent: whatever operations follow, and however its record is extended, enabled,
   topped up, rescoped, swept or removed meanwhile, no later verification of the key is valid.
   */
  lemma RevocationIsPermanent(
      cfg: Config, sys: System, id: string, now: int, ops: seq<Op>,
      input: VerifyInput, clock: nat -> int, returnMetadata: bool)
    requires Inverse(sys.keys) && id in sys.keys.byId && now != 0
    requires Lawful(cfg, Apply(cfg, sys, RevokeKey(id, now)), ops, id, sys.keys.byId[id].keyHash)
    requires WellConfigured(cfg.plugins, input) && cfg.hash(input.key) == sys.keys.byId[id].keyHash
    ensures Verify(cfg, After(cfg, Apply(cfg, sys, RevokeKey(id, now)), ops), input, clock, returnMetadata).0.Invalid?
  {
    var revoked, h := Apply(cfg, sys, RevokeKey(id, now)), sys.keys.byId[id].keyHash;
    StoredIsTracked(sys.keys, id);
    OpTracked(cfg, sys, RevokeKey(id, now), id, h);
    StaysRevoked(cfg, revoked, ops, id, h);
    RevokedIsInvalid(cfg, After(cfg, revoked, ops), id, h, input, clock, returnMetadata);
  }

  lemma {:induction false} HooksIgnoreRevocation(plugins: seq<Plugin>, i: nat, input: VerifyInput, r: Record, at: int)
    requires i <= |plugins|
    ensures LoadedHooks(plugins, i, input, r.(revokedAt := Some(at))) == LoadedHooks(plugins, i, input, r)
    decreases |plugins| - i
  {
    if i < |plugins| { HooksIgnoreRevocation(plugins, i + 1, input, r, at); }
  }

  /**
   The clock must not read 0 when a key is revoked, for verification takes that for never revoked:
   the revocation of a valid key holds over every run that follows if and only if it reads otherwise.
   */
  lemma RevocationNeedsTheClock(
      cfg: Config, sys: System, id: string, now: int, input: VerifyInput, clock: nat -> int)
    requires Inverse(sys.keys) && id in sys.keys.byId && cfg.hash(input.key) == sys.keys.byId[id].keyHash
    requires WellConfigured(cfg.plugins, input) && Verify(cfg, sys, input, clock, false).0.Valid?
    ensures var revoked := Apply(cfg, sys, RevokeKey(id, now));
      (forall ops | Lawful(cfg, revoked, ops, id, sys.keys.byId[id].keyHash) ::
         Verify(cfg, After(cfg, revoked, ops), input, clock, false).0.Invalid?)
      <==> now != 0
  {
    var revoked, h := Apply(cfg, sys, RevokeKey(id, now)), sys.keys.byId[id].keyHash;
    if now != 0 {
      forall ops | Lawful(cfg, revoked, ops, id, h)
        ensures Verify(cfg, After(cfg, revoked, ops), input, clock, false).0.Invalid?
      {
        RevocationIsPermanent(cfg, sys, id, now, ops, input, clock, false);
      }
    } else {
      HooksIgnoreRevocation(cfg.plugins, 0, input, sys.keys.byId[id], now);
      assert Lawful(cfg, revoked, [], id, h) && After(cfg, revoked, []) == revoked;
    }
  }

  // ----- Uses -----

  /** The run's valid verifications of the key with this hash. */
  function ValidUses(cfg: Config, sys: System, ops: seq<Op>, h: string): nat
    requires AllRunnable(cfg, ops)
  {
    if ops == [] then 0
    else
      var before, op := ops[..|ops| - 1], ops[|ops| - 1];
      ValidUses(cfg, sys, before, h)
      + if op.VerifyKey? && cfg.hash(op.input.key) == h
           && Verify(cfg, After(cfg, sys, before), op.input, op.clock, false).0.Valid? then 1 else 0
  }

  /** The uses that accepted top-ups added to this id. */
  function ToppedUp(cfg: Config, sys: System, ops: seq<Op>, id: string): nat
    requires AllRunnable(cfg, ops)
  {
    if ops == [] then 0
    else
      var before, op := ops[..|ops| - 1], ops[|ops| - 1];
      ToppedUp(cfg, sys, before, id)
      + if op.RewriteKey? && op.id == id && op.rewrite.TopUp? && Accepted(op.rewrite)
           && id in After(cfg, sys, before).keys.byId then op.rewrite.amount else 0
  }

  /** The run neither sets nor clears the uses of this id. */
  predicate LeavesLimit(ops: seq<Op>, id: string) {
    forall i :: 0 <= i < |ops| && ops[i].RewriteKey? && ops[i].id == id ==>
      !ops[i].rewrite.SetUses? && !ops[i].rewrite.ClearUses?
  }

  predicate Balanced(keys: KeyMaps, id: string, start: int, spent: nat, added: nat) {
    (Watch(keys, id).Some? ==> Watch(keys, id).value.usesRemaining == Some(start + added - spent))
    && (start >= 0 || spent > 0 ==> spent <= start + added)
  }

  lemma {:induction false} UsesBalance(cfg: Config, sys: System, ops: seq<Op>, id: string, h: string, start: int)
    requires AllRunnable(cfg, ops) && FreshRun(cfg, sys, ops, id, h) && LeavesLimit(ops, id)
    requires UsageLimits in cfg.plugins
    requires Tracked(sys.keys, id, h) && Watch(sys.keys, id).Some?
    requires Watch(sys.keys, id).value.usesRemaining == Some(start)
    ensures Tracked(After(cfg, sys, ops).keys, id, h)
    ensures Balanced(After(cfg, sys, ops).keys, id, start, ValidUses(cfg, sys, ops, h), ToppedUp(cfg, sys, ops, id))
  {
    if ops != [] {
      var before, op := ops[..|ops| - 1], ops[|ops| - 1];
      UsesBalance(cfg, sys, before, id, h, start);
      BalancedStep(cfg, After(cfg, sys, before), op, id, h, start,
                   ValidUses(cfg, sys, before, h), ToppedUp(cfg, sys, before, id));
    }
  }

  /**
   Uses are conserved: since a limit was set, valid verifications plus remaining uses equal the
   starting uses plus top-ups, and verifications never exceed them.
   */
  lemma UsesAreConserved(cfg: Config, sys: System, ops: seq<Op>, id: string, start: int)
    requires Inverse(sys.keys) && id in sys.keys.byId && sys.keys.byId[id].usesRemaining == Some(start)
    requires AllRunnable(cfg, ops) && FreshRun(cfg, sys, ops, id, sys.keys.byId[id].keyHash)
    requires UsageLimits in cfg.plugins && LeavesLimit(ops, id)
    ensures var h := sys.keys.byId[id].keyHash;
      Balanced(After(cfg, sys, ops).keys, id, start, ValidUses(cfg, sys, ops, h), ToppedUp(cfg, sys, ops, id))
  {
    StoredIsTracked(sys.keys, id);
    UsesBalance(cfg, sys, ops, id, sys.keys.byId[id].keyHash, start);
  }

  lemma BalancedStep(cfg: Config, sys: System, op: Op, id: string, h: string, start: int, spent: nat, added: nat)
    requires Runnable(cfg, op) && Fresh(cfg, sys.keys, op, id, h) && LeavesLimit([op], id)
    requires UsageLimits in cfg.plugins && Tracked(sys.keys, id, h) && Balanced(sys.keys, id, start, spent, added)
    ensures Tracked(Apply(cfg, sys, op).keys, id, h)
    ensures Balanced(Apply(cfg, sys, op).keys, id, start,
      spent + (if op.VerifyKey? && cfg.hash(op.input.key) == h && Verify(cfg, sys, op.input, op.clock, false).0.Valid?
               then 1 else 0),
      added + (if op.RewriteKey? && op.id == id && op.rewrite.TopUp? && Accepted(op.rewrite) && id in sys.keys.byId
               then op.rewrite.amount else 0))
  {
    OpTracked(cfg, sys, op, id, h);
    var record := Watch(sys.keys, id);
    match op
    case VerifyKey(input, clock) => VerifyTracked(cfg, sys, input, clock, id, h);
    case GetKey(key, now) => LookupTracked(sys.keys, Get(sys.keys.byHash, cfg.hash(key)), now, cfg, id, h);
    case GetKeyById(i, now) => LookupTracked(sys.keys, Get(sys.keys.byId, i), now, cfg, id, h);
    case RewriteKey(i, w) =>
      assert [op][0] == op;
      if record.Some? { RewriteKeepsIdentity(record.value, w); }
    case _ =>
  }
}
