/**
 The persistent IP access lists: two ordered sets cached in the plugin, backed by the metadata of
 one reserved record in the key store.
 */
module IpAccessStore {
  import opened Prelude
  import opened Records
  import opened MemoryKeyStore
  import opened Plugins

  /** The cached sets, each a list without repeats in insertion order. */
  datatype Cache = Cache(allow: seq<string>, deny: seq<string>, loaded: bool)

  function Insert(s: seq<string>, ip: string): seq<string> {
    if ip in s then s else s + [ip]
  }

  /** A stored list; anything that is not an array counts as empty. */
  function ListIn(r: Record, name: string): seq<string> {
    match Entry(r, name)
    case Some(List(items)) => items
    case _ => []
  }

  function Load(cache: Cache, record: Option<Record>): Cache {
    if record.Some? && record.value.metadata.Some? then
      Cache(Unique(ListIn(record.value, "allow")), Unique(ListIn(record.value, "deny")), true)
    else cache.(loaded := true)
  }

  function EnsureLoaded(cache: Cache, keys: KeyMaps, recordId: string): Cache {
    if cache.loaded then cache else Load(cache, Get(keys.byId, recordId))
  }

  function NewRecord(cache: Cache, recordId: string, now: int): Record {
    Record(recordId, None, "", "__meta_ip_acl__", now, None,
           Some(map["allow" := List(cache.allow), "deny" := List(cache.deny)]), None, None)
  }

  function EnsureExists(cache: Cache, keys: KeyMaps, recordId: string, now: int): KeyMaps {
    if recordId in keys.byId then keys else Put(keys, NewRecord(cache, recordId, now))
  }

  function Save(cache: Cache, keys: KeyMaps, recordId: string, now: int): KeyMaps {
    if recordId !in keys.byId then EnsureExists(cache, keys, recordId, now)
    else
      var r := keys.byId[recordId];
      Put(keys, WithEntry(WithEntry(r, "allow", List(cache.allow)), "deny", List(cache.deny)))
  }

  datatype Command =
    | AddAllow(ip: string) | RemoveAllow(ip: string) | ClearAllow
    | AddDeny(ip: string) | RemoveDeny(ip: string) | ClearDeny
    | Refresh

  /** What a command does to the cached sets. */
  function Edited(c: Cache, cmd: Command): Cache {
    match cmd
    case AddAllow(ip) => c.(allow := Insert(c.allow, ip))
    case RemoveAllow(ip) => c.(allow := Without(c.allow, [ip]))
    case ClearAllow => c.(allow := [])
    case AddDeny(ip) => c.(deny := Insert(c.deny, ip))
    case RemoveDeny(ip) => c.(deny := Without(c.deny, [ip]))
    case ClearDeny => c.(deny := [])
    case Refresh => c
  }

  function Execute(cache: Cache, keys: KeyMaps, recordId: string, cmd: Command, now: int): (Cache, KeyMaps) {
    if cmd.Refresh? then (Load(cache, Get(keys.byId, recordId)), keys)
    else
      var edited := Edited(EnsureLoaded(cache, keys, recordId), cmd);
      (edited, Save(edited, keys, recordId, now))
  }

  function Setup(initialAllow: seq<string>, initialDeny: seq<string>, keys: KeyMaps, recordId: string, now: int)
    : (Cache, KeyMaps)
  {
    var cache := Cache(Unique(initialAllow), Unique(initialDeny), false);
    var after := EnsureExists(cache, keys, recordId, now);
    (Load(cache, Get(after.byId, recordId)), after)
  }

  class IpAccessControl {
    const recordId: string
    const keyStore: MemoryKeyStore
    var cache: Cache

    constructor (
        recordIdOption: Option<string>, initialAllow: seq<string>, initialDeny: seq<string>, keyStore: MemoryKeyStore)
      ensures cache == Cache(Unique(initialAllow), Unique(initialDeny), false) && this.keyStore == keyStore
      ensures recordId == Or(recordIdOption, "__uk_ip_acl__")
      ensures recordId == Or(recordIdOption, "__uk_ip_acl__")
    {
      recordId, this.keyStore := Or(recordIdOption, "__uk_ip_acl__"), keyStore;
      cache := Cache(Unique(initialAllow), Unique(initialDeny), false);
    }

    method LoadFromStore()
      requires keyStore.Valid()
      modifies this
      ensures cache == Load(old(cache), Get(keyStore.view.byId, recordId))
    {
      var existing := keyStore.FindKeyById(recordId);
      if existing != null && existing.Value().metadata.Some? {
        var r := existing.Value();
        cache := cache.(allow := Unique(ListIn(r, "allow")), deny := Unique(ListIn(r, "deny")));
      }
      cache := cache.(loaded := true);
    }

    method CreateIfMissing(now: int)
      requires keyStore.Valid()
      modifies keyStore
      ensures keyStore.Valid() && keyStore.view == EnsureExists(cache, old(keyStore.view), recordId, now)
    {
      var existing := keyStore.FindKeyById(recordId);
      if existing != null { return; }
      var record := new KeyRecord(NewRecord(cache, recordId, now));
      keyStore.CreateKey(record);
    }

    method SaveToStore(now: int)
      requires keyStore.Valid()
      modifies keyStore
      ensures keyStore.Valid() && keyStore.view == Save(cache, old(keyStore.view), recordId, now)
    {
      var existing := keyStore.FindKeyById(recordId);
      if existing == null {
        CreateIfMissing(now);
        return;
      }
      var r := existing.Value();
      var updated := new KeyRecord(WithEntry(WithEntry(r, "allow", List(cache.allow)), "deny", List(cache.deny)));
      keyStore.UpdateKey(updated);
    }

    method SetUp(now: int)
      requires keyStore.Valid()
      modifies this, keyStore
      ensures keyStore.Valid() && keyStore.view == EnsureExists(old(cache), old(keyStore.view), recordId, now)
      ensures cache == Load(old(cache), Get(keyStore.view.byId, recordId))
    {
      CreateIfMissing(now);
      LoadFromStore();
    }

    /** The change of the cached sets. */
    method EditCache(cmd: Command)
      modifies this
      ensures cache == Edited(old(cache), cmd)
    {
      match cmd {
        case AddAllow(ip) => if ip !in cache.allow { cache := cache.(allow := cache.allow + [ip]); }
        case RemoveAllow(ip) => cache := cache.(allow := Without(cache.allow, [ip]));
        case ClearAllow => cache := cache.(allow := []);
        case AddDeny(ip) => if ip !in cache.deny { cache := cache.(deny := cache.deny + [ip]); }
        case RemoveDeny(ip) => cache := cache.(deny := Without(cache.deny, [ip]));
        case ClearDeny => cache := cache.(deny := []);
        case Refresh =>
      }
    }

    /** addAllow, removeAllow, clearAllow, addDeny, removeDeny, clearDeny and refresh. */
    method Run(cmd: Command, now: int)
      requires keyStore.Valid()
      modifies this, keyStore
      ensures keyStore.Valid() && (cache, keyStore.view) == Execute(old(cache), old(keyStore.view), recordId, cmd, now)
    {
      if cmd.Refresh? {
        LoadFromStore();
        return;
      }
      if !cache.loaded { LoadFromStore(); }
      EditCache(cmd);
      SaveToStore(now);
    }

    method BeforeVerify(ip: Option<string>) returns (r: HookResult)
      requires keyStore.Valid()
      modifies this
      ensures cache == EnsureLoaded(old(cache), keyStore.view, recordId)
      ensures r == IpHook(cache.allow, cache.deny, ip)
    {
      if !cache.loaded { LoadFromStore(); }
      r := IpHook(cache.allow, cache.deny, ip);
    }
  }

  // ----- Agreement of cache and record -----

  ghost predicate SameElements(a: seq<string>, b: seq<string>) {
    forall x :: x in a <==> x in b
  }

  function Stored(keys: KeyMaps, recordId: string, name: string): seq<string> {
    if recordId in keys.byId then ListIn(keys.byId[recordId], name) else []
  }

  /** The cached sets hold what the stored lists hold. */
  ghost predicate Agrees(cache: Cache, keys: KeyMaps, recordId: string) {
    && SameElements(cache.allow, Stored(keys, recordId, "allow"))
    && SameElements(cache.deny, Stored(keys, recordId, "deny"))
  }

  /** The record exists and carries metadata, so that loading reads it. */
  predicate Backed(keys: KeyMaps, recordId: string) {
    recordId in keys.byId && keys.byId[recordId].metadata.Some?
  }

  /** A key store whose records sit under their own ids. */
  predicate OwnId(keys: KeyMaps, recordId: string) {
    recordId in keys.byId ==> keys.byId[recordId].id == recordId
  }

  /** The stored lists are the arrays in the record's metadata; anything else counts as empty. */
  lemma StoredMeans(keys: KeyMaps, recordId: string, name: string, ip: string)
    ensures ip in Stored(keys, recordId, name)
      <==> recordId in keys.byId
           && var m := keys.byId[recordId].metadata;
              m.Some? && name in m.value && m.value[name].List? && ip in m.value[name].items
  {
  }

  /** Saving over a record changes its two lists and nothing else of it, nor any other record. */
  lemma SaveKeepsRest(cache: Cache, keys: KeyMaps, recordId: string, now: int)
    requires recordId in keys.byId && OwnId(keys, recordId)
    ensures var (before, after) := (keys.byId[recordId], Get(Save(cache, keys, recordId, now).byId, recordId));
      after.Some? && after.value == before.(metadata := after.value.metadata)
      && Entry(after.value, "allow") == Some(List(cache.allow)) && Entry(after.value, "deny") == Some(List(cache.deny))
      && forall name: string | name != "allow" && name != "deny" :: Entry(after.value, name) == Entry(before, name)
    ensures forall id | id != recordId :: Get(Save(cache, keys, recordId, now).byId, id) == Get(keys.byId, id)
  {
  }

  /** The reserved record is filed under its own hash, never expires or runs out, and no sweep takes it. */
  lemma ReservedRecordStays(cache: Cache, keys: KeyMaps, recordId: string, now: int, t: int)
    requires recordId !in keys.byId
    ensures var after := EnsureExists(cache, keys, recordId, now);
      recordId in after.byId && Get(after.byHash, "__meta_ip_acl__") == Some(after.byId[recordId])
      && var r := after.byId[recordId];
         r.id == recordId && r.createdAt == now && r.userId == None && r.prefix == "" && r.revokedAt == None
         && !DueBy(r, t) && !ExpiredAt(r, t) && !UsedUp(r)
  {
  }

  /** A loaded cache is kept whatever the store holds; only one not loaded reads it. */
  lemma LoadsOnce(cache: Cache, keys: KeyMaps, recordId: string)
    ensures cache.loaded ==> EnsureLoaded(cache, keys, recordId) == cache
    ensures !cache.loaded ==> EnsureLoaded(cache, keys, recordId) == Execute(cache, keys, recordId, Refresh, 0).0
    ensures EnsureLoaded(cache, keys, recordId).loaded
  {
  }

  /** Saving makes the record agree with the cache, whatever it held before. */
  lemma SaveAgrees(cache: Cache, keys: KeyMaps, recordId: string, now: int)
    requires OwnId(keys, recordId)
    ensures Agrees(cache, Save(cache, keys, recordId, now), recordId)
    ensures Backed(Save(cache, keys, recordId, now), recordId) && OwnId(Save(cache, keys, recordId, now), recordId)
  {
  }

  /** Setup agrees unless it finds a record without metadata and starts from non-empty lists. */
  lemma SetupAgreesIff(allow: seq<string>, deny: seq<string>, keys: KeyMaps, recordId: string, now: int)
    requires OwnId(keys, recordId)
    ensures var (cache, after) := Setup(allow, deny, keys, recordId, now);
      Agrees(cache, after, recordId) <==> recordId !in keys.byId || Backed(keys, recordId) || allow == deny == []
    ensures var (cache, after) := Setup(allow, deny, keys, recordId, now);
      cache.loaded && OwnId(after, recordId)
      && (Backed(after, recordId) <==> recordId !in keys.byId || Backed(keys, recordId))
  {
    if recordId in keys.byId && !Backed(keys, recordId) {
      if allow != [] { assert allow[0] in Unique(allow); }
      if deny != [] { assert deny[0] in Unique(deny); }
    }
  }

  /** A run of commands; between them other callers may change the key store, but not this record. */
  datatype Step = Do(cmd: Command, now: int) | Elsewhere(keys: KeyMaps)

  ghost predicate Undisturbed(keys: KeyMaps, step: Step, recordId: string) {
    step.Elsewhere? ==> Get(step.keys.byId, recordId) == Get(keys.byId, recordId)
  }

  function Advance(s: (Cache, KeyMaps), step: Step, recordId: string): (Cache, KeyMaps) {
    match step
    case Do(cmd, now) => Execute(s.0, s.1, recordId, cmd, now)
    case Elsewhere(keys) => (s.0, keys)
  }

  function AdvanceAll(s: (Cache, KeyMaps), steps: seq<Step>, recordId: string): (Cache, KeyMaps) {
    if steps == [] then s else Advance(AdvanceAll(s, steps[..|steps| - 1], recordId), steps[|steps| - 1], recordId)
  }

  ghost predicate Settled(s: (Cache, KeyMaps), recordId: string) {
    s.0.loaded && Agrees(s.0, s.1, recordId) && OwnId(s.1, recordId)
  }

  lemma StepAgrees(s: (Cache, KeyMaps), step: Step, recordId: string)
    requires Settled(s, recordId) && Undisturbed(s.1, step, recordId)
    ensures Settled(Advance(s, step, recordId), recordId)
  {
    match step
    case Do(cmd, now) => if !cmd.Refresh? { SaveAgrees(Edited(s.0, cmd), s.1, recordId, now); }
    case Elsewhere(keys) => assert Stored(keys, recordId, "allow") == Stored(s.1, recordId, "allow");
  }

  ghost predicate AllUndisturbed(s: (Cache, KeyMaps), steps: seq<Step>, recordId: string) {
    steps == [] ||
    (AllUndisturbed(s, steps[..|steps| - 1], recordId)
     && Undisturbed(AdvanceAll(s, steps[..|steps| - 1], recordId).1, steps[|steps| - 1], recordId))
  }

  /** From agreement on, every run of commands leaves the cache in agreement with its record. */
  lemma {:induction false} CacheAgreesForever(s: (Cache, KeyMaps), steps: seq<Step>, recordId: string)
    requires Settled(s, recordId) && AllUndisturbed(s, steps, recordId)
    ensures Settled(AdvanceAll(s, steps, recordId), recordId)
  {
    if steps != [] {
      CacheAgreesForever(s, steps[..|steps| - 1], recordId);
      StepAgrees(AdvanceAll(s, steps[..|steps| - 1], recordId), steps[|steps| - 1], recordId);
    }
  }

  /**
   From setup to the end of any undisturbed run, cache and record agree, and every address is
   decided as the stored lists would decide it, unless setup found a record without metadata and was
   given non-empty lists.
   */
  lemma AgreesFromSetup(
      allow: seq<string>, deny: seq<string>, keys: KeyMaps, recordId: string, now: int, steps: seq<Step>,
      ip: Option<string>)
    requires OwnId(keys, recordId)
    requires recordId !in keys.byId || Backed(keys, recordId) || allow == deny == []
    requires AllUndisturbed(Setup(allow, deny, keys, recordId, now), steps, recordId)
    ensures var (cache, after) := AdvanceAll(Setup(allow, deny, keys, recordId, now), steps, recordId);
      Agrees(cache, after, recordId)
      && IpHook(cache.allow, cache.deny, ip)
         == IpHook(Stored(after, recordId, "allow"), Stored(after, recordId, "deny"), ip)
  {
    var s := Setup(allow, deny, keys, recordId, now);
    SetupAgreesIff(allow, deny, keys, recordId, now);
    CacheAgreesForever(s, steps, recordId);
    DecidesAsStored(AdvanceAll(s, steps, recordId), recordId, ip);
  }

  /** A disagreement left by setup lasts until the first command that saves: from then on the two agree. */
  lemma FirstEditRestoresAgreement(s: (Cache, KeyMaps), cmd: Command, recordId: string, now: int)
    requires s.0.loaded && OwnId(s.1, recordId) && !cmd.Refresh?
    ensures Settled(Execute(s.0, s.1, recordId, cmd, now), recordId)
  {
    SaveAgrees(Edited(s.0, cmd), s.1, recordId, now);
  }

  /** Verification decides by the cache as it would by the stored lists. */
  lemma DecidesAsStored(s: (Cache, KeyMaps), recordId: string, ip: Option<string>)
    requires Settled(s, recordId)
    ensures IpHook(s.0.allow, s.0.deny, ip)
         == IpHook(Stored(s.1, recordId, "allow"), Stored(s.1, recordId, "deny"), ip)
  {
    var (allow, deny) := (Stored(s.1, recordId, "allow"), Stored(s.1, recordId, "deny"));
    assert s.0.allow != [] ==> s.0.allow[0] in allow;
    assert allow != [] ==> allow[0] in s.0.allow;
  }

  /** A new instance on the same store, whatever lists it is given, starts with the same sets. */
  lemma RestartKeepsLists(s: (Cache, KeyMaps), recordId: string, allow: seq<string>, deny: seq<string>, now: int)
    requires Settled(s, recordId) && Backed(s.1, recordId)
    ensures var (cache, after) := Setup(allow, deny, s.1, recordId, now);
      after == s.1 && SameElements(cache.allow, s.0.allow) && SameElements(cache.deny, s.0.deny)
  {
  }

  /** An address added stands last, one listed already stays where it is. */
  lemma AddingAppends(c: Cache, ip: string)
    ensures Edited(c, AddAllow(ip)).allow == if ip in c.allow then c.allow else c.allow + [ip]
    ensures Edited(c, AddDeny(ip)).deny == if ip in c.deny then c.deny else c.deny + [ip]
  {
  }

  ghost predicate NoRepeats(s: seq<string>) {
    forall i, j :: 0 <= i < j < |s| ==> s[i] != s[j]
  }

  lemma {:induction false} WithoutNoRepeats(s: seq<string>, drop: seq<string>)
    requires NoRepeats(s)
    ensures NoRepeats(Without(s, drop))
  {
    if s != [] { WithoutNoRepeats(s[..|s| - 1], drop); }
  }

  lemma StepKeepsSets(s: (Cache, KeyMaps), step: Step, recordId: string)
    requires NoRepeats(s.0.allow) && NoRepeats(s.0.deny)
    ensures var t := Advance(s, step, recordId).0; NoRepeats(t.allow) && NoRepeats(t.deny)
  {
    if step.Do? && !step.cmd.Refresh? {
      var c := EnsureLoaded(s.0, s.1, recordId);
      match step.cmd
      case RemoveAllow(ip) => WithoutNoRepeats(c.allow, [ip]);
      case RemoveDeny(ip) => WithoutNoRepeats(c.deny, [ip]);
      case _ =>
    }
  }

  /** The cached lists are sets: from setup on, whatever is added, loaded or removed, no address is listed twice. */
  lemma {:induction false} CacheHoldsSets(
      allow: seq<string>, deny: seq<string>, keys: KeyMaps, recordId: string, now: int, steps: seq<Step>)
    ensures var cache := AdvanceAll(Setup(allow, deny, keys, recordId, now), steps, recordId).0;
      NoRepeats(cache.allow) && NoRepeats(cache.deny)
  {
    if steps != [] {
      CacheHoldsSets(allow, deny, keys, recordId, now, steps[..|steps| - 1]);
      StepKeepsSets(AdvanceAll(Setup(allow, deny, keys, recordId, now), steps[..|steps| - 1], recordId),
                    steps[|steps| - 1], recordId);
    }
  }

  /** A command edits exactly the set it names. */
  lemma EditsAreExact(c: Cache, ip: string, x: string)
    ensures Edited(c, ClearAllow).allow == [] && Edited(c, ClearDeny).deny == []
    ensures x in Edited(c, AddAllow(ip)).allow <==> x in c.allow || x == ip
    ensures x in Edited(c, RemoveAllow(ip)).allow <==> x in c.allow && x != ip
    ensures x in Edited(c, AddDeny(ip)).deny <==> x in c.deny || x == ip
    ensures x in Edited(c, RemoveDeny(ip)).deny <==> x in c.deny && x != ip
    ensures Edited(c, AddAllow(ip)).deny == Edited(c, RemoveAllow(ip)).deny == Edited(c, ClearAllow).deny == c.deny
    ensures Edited(c, AddDeny(ip)).allow == Edited(c, RemoveDeny(ip)).allow == Edited(c, ClearDeny).allow == c.allow
  {
  }
}
