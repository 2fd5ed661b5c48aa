/** The built-in plugins as the verification pipeline sees them: their hooks, and their record rewrites. */
module Plugins {
  import opened Prelude
  import opened Records
  import Duration
  import TokenBucket
  import RateLimitRequests
  import Limiter = MemoryRateLimit

  datatype RateLimit =
    | Fixed(limit: int, duration: Duration.Input)
    | Bucket(capacity: real, refillTokens: real, interval: Duration.Input, cost: Option<real>)

  datatype VerifyInput = VerifyInput(
    key: string, ip: Option<string>, identifier: Option<string>, namespace: Option<string>,
    scopes: seq<string>, rateLimit: Option<RateLimit>)

  datatype Plugin =
    | RateLimiter(identify: VerifyInput -> Option<string>, default: Option<RateLimit>, reason: string)
    | IpAccess(allow: seq<string>, deny: seq<string>)
    | UsageLimits
    | EnableDisable
    | PermissionsScopes(metadataKey: string)

  /** A hook lets the call pass, rejects it, or throws; a throwing hook is skipped. */
  datatype HookResult = Pass | Reject(reason: string) | Throw

  /** Absent and empty texts are both false. */
  predicate Blank(s: Option<string>) {
    s.None? || s.value == ""
  }

  // ----- beforeVerify -----

  /** The store call a rate-limit request stands for; none when its duration does not parse. */
  function LimiterCall(namespace: string, id: string, cfg: RateLimit): Option<RateLimitRequests.Request> {
    match cfg
    case Fixed(limit, duration) =>
      (match Duration.ParseDuration(duration)
       case None => None
       case Some(ms) => Some(RateLimitRequests.IncrementAndCheck(namespace, id, limit, ms)))
    case Bucket(capacity, refill, interval, cost) =>
      (match Duration.ParseDuration(interval)
       case None => None
       case Some(ms) =>
         var c := TokenBucket.Config(capacity, refill, ms as real);
         Some(RateLimitRequests.ConsumeTokenBucket(namespace, id, c, Or(cost, 1.0))))
  }

  /** Token buckets that refill: a positive amount over a positive interval. */
  predicate Refills(cfg: Option<RateLimit>) {
    cfg.Some? && cfg.value.Bucket? ==>
      cfg.value.refillTokens > 0.0
      && match Duration.ParseDuration(cfg.value.interval) case None => true case Some(ms) => ms > 0
  }

  predicate WellConfigured(plugins: seq<Plugin>, input: VerifyInput) {
    Refills(input.rateLimit)
    && forall i :: 0 <= i < |plugins| && plugins[i].RateLimiter? ==> Refills(plugins[i].default)
  }

  function RateLimitHook(p: Plugin, input: VerifyInput, s: Limiter.Limiter, now: int): (Limiter.Limiter, HookResult)
    requires p.RateLimiter? && Refills(p.default) && Refills(input.rateLimit)
  {
    var id := p.identify(input);
    var cfg := if input.rateLimit.Some? then input.rateLimit else p.default;
    if Blank(input.namespace) then (s, Reject("namespace_required"))
    else if Blank(id) || cfg.None? then (s, Pass)
    else
      var call := LimiterCall(input.namespace.value, id.value, cfg.value);
      if call.None? then (s, Throw)
      else
        var (after, reply) := Limiter.Serve(s, call.value, now);
        (after, if reply.outcome.success then Pass else Reject(p.reason))
  }

  /** The store call a hook of this plugin makes, if it gets that far. */
  function HookRequest(p: Plugin, input: VerifyInput): Option<RateLimitRequests.Request>
    requires p.RateLimiter?
  {
    var id := p.identify(input);
    var cfg := if input.rateLimit.Some? then input.rateLimit else p.default;
    if Blank(input.namespace) || Blank(id) || cfg.None? then None
    else LimiterCall(input.namespace.value, id.value, cfg.value)
  }

  /** The request is for the pair that the call names and the plugin identifies. */
  lemma HookRequestIsFor(p: Plugin, input: VerifyInput)
    requires p.RateLimiter? && HookRequest(p, input).Some?
    ensures var r := HookRequest(p, input).value;
      input.namespace == Some(r.namespace) && p.identify(input) == Some(r.identifier)
      && r.namespace != "" && r.identifier != ""
  {
  }

  function DurationOf(cfg: RateLimit): Duration.Input {
    match cfg
    case Fixed(_, duration) => duration
    case Bucket(_, _, interval, _) => interval
  }

  /**
   The hook throws exactly when it reaches a duration that does not parse: the call names a
   namespace and the caller is identified. Then nothing has been counted; without a namespace it
   rejects before it looks at the rule.
   */
  lemma ThrowsIffUnparsable(p: Plugin, input: VerifyInput, s: Limiter.Limiter, now: int)
    requires p.RateLimiter? && Refills(p.default) && Refills(input.rateLimit)
    ensures var cfg := if input.rateLimit.Some? then input.rateLimit else p.default;
      var (after, result) := RateLimitHook(p, input, s, now);
      (result.Throw? <==> !Blank(input.namespace) && !Blank(p.identify(input)) && cfg.Some?
                          && Duration.ParseDuration(DurationOf(cfg.value)).None?)
      && (result.Throw? ==> after == s)
      && (Blank(input.namespace) ==> (after, result) == (s, Reject("namespace_required")))
      && (!Blank(input.namespace) && (Blank(p.identify(input)) || cfg.None?) ==> (after, result) == (s, Pass))
  {
  }

  function IpHook(allow: seq<string>, deny: seq<string>, ip: Option<string>): HookResult {
    if Blank(ip) then Pass
    else if deny != [] && ip.value in deny then Reject("ip_denied")
    else if allow != [] && ip.value !in allow then Reject("ip_not_allowed")
    else Pass
  }

  /** Denied addresses never pass, and with an allow list only listed ones do; no address, no check. */
  lemma IpHookMeaning(allow: seq<string>, deny: seq<string>, ip: Option<string>)
    ensures IpHook(allow, deny, ip) == Reject("ip_denied") <==> !Blank(ip) && ip.value in deny
    ensures IpHook(allow, deny, ip) == Reject("ip_not_allowed") <==>
      !Blank(ip) && ip.value !in deny && |allow| > 0 && ip.value !in allow
    ensures IpHook(allow, deny, ip) == Pass <==> AddressAllowed(allow, deny, ip)
  {
  }

  /** An address may pass if it is not denied and, should anything be listed as allowed, is listed; no address may. */
  predicate AddressAllowed(allow: seq<string>, deny: seq<string>, ip: Option<string>) {
    ip == None || ip == Some("") || (ip.value !in deny && (allow == [] || ip.value in allow))
  }

  function BeforeVerify(p: Plugin, input: VerifyInput, s: Limiter.Limiter, now: int): (Limiter.Limiter, HookResult)
    requires p.RateLimiter? ==> Refills(p.default) && Refills(input.rateLimit)
  {
    match p
    case RateLimiter(_, _, _) => RateLimitHook(p, input, s, now)
    case IpAccess(allow, deny) => (s, IpHook(allow, deny, input.ip))
    case _ => (s, Pass)
  }

  /** Before the key is looked up only addresses and rates are judged, and only rates leave a trace. */
  lemma BeforeVerifyMeaning(p: Plugin, input: VerifyInput, s: Limiter.Limiter, now: int)
    requires !p.RateLimiter?
    ensures var (after, result) := BeforeVerify(p, input, s, now);
      after == s && !result.Throw?
      && (result.Pass? <==> p.IpAccess? ==> AddressAllowed(p.allow, p.deny, input.ip))
      && (p.IpAccess? && result.Reject? ==>
            result.reason == if input.ip.value in p.deny then "ip_denied" else "ip_not_allowed")
  {
    if p.IpAccess? { IpHookMeaning(p.allow, p.deny, input.ip); }
  }

  // ----- onKeyRecordLoaded -----

  function Entry(r: Record, name: string): Option<Json> {
    if r.metadata.None? then None else Get(r.metadata.value, name)
  }

  function ScopesIn(j: Option<Json>): seq<string> {
    match j
    case Some(Str(s)) => if s == "" then [] else [s]
    case Some(List(items)) => items
    case _ => []
  }

  predicate UsedUp(r: Record) {
    r.usesRemaining.Some? && r.usesRemaining.value <= 0
  }

  function OnKeyRecordLoaded(p: Plugin, input: VerifyInput, r: Record): HookResult {
    match p
    case UsageLimits => if UsedUp(r) then Reject("usage_exceeded") else Pass
    case EnableDisable => if Entry(r, "disabled") == Some(Bool(true)) then Reject("disabled") else Pass
    case PermissionsScopes(k) =>
      if forall s | s in input.scopes :: s in ScopesIn(Entry(r, k)) then Pass else Reject("insufficient_scope")
    case _ => Pass
  }

  /** The metadata of the record grants this scope: in a list, or as the one scope a text stands for. */
  predicate HasScope(r: Record, k: string, scope: string) {
    r.metadata.Some? && k in r.metadata.value
    && match r.metadata.value[k]
       case List(items) => scope in items
       case Str(s) => s != "" && s == scope
       case _ => false
  }

  /** The metadata of the record says `disabled: true`. */
  predicate IsDisabled(r: Record) {
    r.metadata.Some? && "disabled" in r.metadata.value && r.metadata.value["disabled"] == Bool(true)
  }

  /** What the loaded record lets through: every required scope granted, not disabled, uses left. */
  lemma OnKeyRecordLoadedMeaning(p: Plugin, input: VerifyInput, r: Record)
    ensures var result := OnKeyRecordLoaded(p, input, r);
      match p
      case PermissionsScopes(k) =>
        result == if forall scope | scope in input.scopes :: HasScope(r, k, scope) then Pass
                  else Reject("insufficient_scope")
      case EnableDisable => result == if IsDisabled(r) then Reject("disabled") else Pass
      case UsageLimits =>
        result == if r.usesRemaining == None || r.usesRemaining.value > 0 then Pass else Reject("usage_exceeded")
      case _ => result == Pass
  {
    if p.PermissionsScopes? {
      forall scope | scope in input.scopes
        ensures HasScope(r, p.metadataKey, scope) <==> scope in ScopesIn(Entry(r, p.metadataKey))
      {
      }
    }
  }

  // ----- Record rewrites of the plugin extensions -----

  function WithEntry(r: Record, name: string, j: Json): Record {
    r.(metadata := Some(Or(r.metadata, map[])[name := j]))
  }

  /** Duplicates dropped, first occurrences kept: Array.from(new Set(values)). */
  function Unique(values: seq<string>): (u: seq<string>)
    ensures forall v :: v in u <==> v in values
    ensures forall i, j :: 0 <= i < j < |u| ==> u[i] != u[j]
  {
    if values == [] then []
    else
      var (front, last) := (Unique(values[..|values| - 1]), values[|values| - 1]);
      assert forall v :: v in values <==> v in values[..|values| - 1] || v == last;
      if last in front then front else front + [last]
  }

  /** The scopes kept stand in the order in which they first occur. */
  lemma {:induction false} UniqueKeepsOrder(values: seq<string>, i: nat, j: nat)
    requires i < j < |Unique(values)|
    ensures IndexOf(values, Unique(values)[i]) < IndexOf(values, Unique(values)[j]) < |values|
  {
    var n := |values| - 1;
    var (before, last) := (values[..n], values[n]);
    var front := Unique(before);
    assert values == before + [last];
    FirstInPrefix(before, last, front[i]);
    if j < |front| {
      UniqueKeepsOrder(before, i, j);
      FirstInPrefix(before, last, front[j]);
    } else {
      IndexOfUnique(values, last, n);
    }
  }

  lemma FirstInPrefix(before: seq<string>, last: string, v: string)
    requires v in before
    ensures IndexOf(before + [last], v) == IndexOf(before, v) < |before|
  {
    var i := IndexOf(before, v);
    assert (before + [last])[..i] == before[..i];
    IndexOfUnique(before + [last], v, i);
  }

  function Without(values: seq<string>, drop: seq<string>): (u: seq<string>)
    ensures forall v :: v in u <==> v in values && v !in drop
    ensures |u| <= |values|
  {
    if values == [] then []
    else
      var (front, last) := (Without(values[..|values| - 1], drop), values[|values| - 1]);
      assert forall v :: v in values <==> v in values[..|values| - 1] || v == last;
      if last in drop then front else front + [last]
  }

  lemma {:induction false} UniquePrefix(a: seq<string>, b: seq<string>)
    ensures Unique(a) <= Unique(a + b)
  {
    if b == [] {
      assert a + b == a;
    } else {
      var n := |b| - 1;
      UniquePrefix(a, b[..n]);
      assert (a + b)[..|a + b| - 1] == a + b[..n];
    }
  }

  lemma {:induction false} WithoutKeepsOrder(values: seq<string>, drop: seq<string>, i: nat, j: nat)
    requires i < j < |Without(values, drop)| && forall k, l :: 0 <= k < l < |values| ==> values[k] != values[l]
    ensures IndexOf(values, Without(values, drop)[i]) < IndexOf(values, Without(values, drop)[j]) < |values|
  {
    var n := |values| - 1;
    var (before, last) := (values[..n], values[n]);
    var front := Without(before, drop);
    assert values == before + [last];
    FirstInPrefix(before, last, front[i]);
    if j < |front| {
      WithoutKeepsOrder(before, drop, i, j);
      FirstInPrefix(before, last, front[j]);
    } else {
      IndexOfUnique(values, last, n);
    }
  }

  datatype Rewrite =
    | ExtendExpiry(additionalMs: int, now: int)
    | SetUses(remaining: Option<int>)
    | TopUp(amount: int)
    | ClearUses
    | SetDisabled(disabled: bool)
    | Grant(metadataKey: string, scopes: seq<string>)
    | Ungrant(metadataKey: string, scopes: seq<string>)
    | SetScopes(metadataKey: string, scopes: seq<string>)

  /** Arguments the operation accepts: extensions and top-ups must be positive. */
  predicate Accepted(w: Rewrite) {
    (w.ExtendExpiry? ==> w.additionalMs > 0) && (w.TopUp? ==> w.amount > 0)
  }

  /** The record written back by each read-modify-write. */
  function Rewritten(r: Record, w: Rewrite): Record {
    match w
    case ExtendExpiry(add, now) => r.(expiresAt := Some(Or(r.expiresAt, now) + add))
    case SetUses(n) => r.(usesRemaining := n)
    case TopUp(amount) => r.(usesRemaining := Some(Or(r.usesRemaining, 0) + amount))
    case ClearUses => r.(usesRemaining := None)
    case SetDisabled(b) => WithEntry(r, "disabled", Bool(b))
    case Grant(k, scopes) => WithEntry(r, k, List(Unique(ScopesIn(Entry(r, k)) + scopes)))
    case Ungrant(k, scopes) => WithEntry(r, k, List(Without(Unique(ScopesIn(Entry(r, k))), scopes)))
    case SetScopes(k, scopes) => WithEntry(r, k, List(Unique(scopes)))
  }

  /** Disabling blocks a key whatever else it holds, and enabling lifts exactly that. */
  lemma DisableThenEnable(r: Record, input: VerifyInput)
    ensures OnKeyRecordLoaded(EnableDisable, input, Rewritten(r, SetDisabled(true))) == Reject("disabled")
    ensures var disabled := Rewritten(r, SetDisabled(true));
      OnKeyRecordLoaded(EnableDisable, input, Rewritten(disabled, SetDisabled(false))) == Pass
  {
  }

  /** Granting joins, revoking subtracts and setting replaces the key's scopes. */
  lemma ScopesAfter(r: Record, k: string, scopes: seq<string>, s: string)
    ensures HasScope(Rewritten(r, Grant(k, scopes)), k, s) <==> HasScope(r, k, s) || s in scopes
    ensures HasScope(Rewritten(r, Ungrant(k, scopes)), k, s) <==> HasScope(r, k, s) && s !in scopes
    ensures HasScope(Rewritten(r, SetScopes(k, scopes)), k, s) <==> s in scopes
  {
  }

  /** Scopes held keep their places: a grant appends the new ones, a revocation closes the gaps. */
  lemma ScopesKeepPlaces(r: Record, k: string, scopes: seq<string>, held: seq<string>)
    requires Entry(r, k) == Some(List(held)) && Unique(held) == held
    ensures Entry(Rewritten(r, Ungrant(k, scopes)), k) == Some(List(Without(held, scopes)))
    ensures var granted := Unique(held + scopes);
      held <= granted && Entry(Rewritten(r, Grant(k, scopes)), k) == Some(List(granted))
  {
    ScopesHeld(r, k, held);
    UniquePrefix(held, scopes);
    EntryWritten(r, k, List(Unique(held + scopes)));
    EntryWritten(r, k, List(Without(held, scopes)));
  }

  lemma ScopesHeld(r: Record, k: string, held: seq<string>)
    requires Entry(r, k) == Some(List(held)) && Unique(held) == held
    ensures ScopesIn(Entry(r, k)) == held && Unique(ScopesIn(Entry(r, k))) == held
  {
  }

  lemma EntryWritten(r: Record, k: string, value: Json)
    ensures Entry(WithEntry(r, k, value), k) == Some(value)
  {
  }

  /** Scopes that are all different are kept as they are. */
  lemma {:induction false} UniqueOfDistinct(values: seq<string>)
    requires forall i, j :: 0 <= i < j < |values| ==> values[i] != values[j]
    ensures Unique(values) == values
  {
    if values != [] { UniqueOfDistinct(values[..|values| - 1]); }
  }

  /** So what the hook decides after each: exactly the scopes set, joined or left satisfy a call. */
  lemma ScopesDecide(r: Record, k: string, scopes: seq<string>, input: VerifyInput)
    ensures OnKeyRecordLoaded(PermissionsScopes(k), input, Rewritten(r, SetScopes(k, scopes)))
      == if forall s | s in input.scopes :: s in scopes then Pass else Reject("insufficient_scope")
    ensures OnKeyRecordLoaded(PermissionsScopes(k), input, Rewritten(r, Grant(k, scopes)))
      == if forall s | s in input.scopes :: HasScope(r, k, s) || s in scopes
         then Pass else Reject("insufficient_scope")
    ensures OnKeyRecordLoaded(PermissionsScopes(k), input, Rewritten(r, Ungrant(k, scopes)))
      == if forall s | s in input.scopes :: HasScope(r, k, s) && s !in scopes
         then Pass else Reject("insufficient_scope")
  {
    forall s ensures HasScope(Rewritten(r, SetScopes(k, scopes)), k, s) <==> s in scopes
             ensures HasScope(Rewritten(r, Grant(k, scopes)), k, s) <==> HasScope(r, k, s) || s in scopes
             ensures HasScope(Rewritten(r, Ungrant(k, scopes)), k, s) <==> HasScope(r, k, s) && s !in scopes
    {
      ScopesAfter(r, k, scopes, s);
    }
    OnKeyRecordLoadedMeaning(PermissionsScopes(k), input, Rewritten(r, SetScopes(k, scopes)));
    OnKeyRecordLoadedMeaning(PermissionsScopes(k), input, Rewritten(r, Grant(k, scopes)));
    OnKeyRecordLoadedMeaning(PermissionsScopes(k), input, Rewritten(r, Ungrant(k, scopes)));
  }

  /** Setting, clearing and topping up leave just those uses, and the hook rejects once none is left. */
  lemma UsesAfter(r: Record, n: Option<int>, amount: int, input: VerifyInput)
    ensures Rewritten(r, SetUses(n)).usesRemaining == n
    ensures Rewritten(r, ClearUses).usesRemaining == None
    ensures Rewritten(r, TopUp(amount)).usesRemaining
      == Some(amount + match r.usesRemaining case Some(m) => m case None => 0)
    ensures OnKeyRecordLoaded(UsageLimits, input, Rewritten(r, SetUses(n)))
      == if n.Some? && n.value <= 0 then Reject("usage_exceeded") else Pass
    ensures OnKeyRecordLoaded(UsageLimits, input, Rewritten(r, ClearUses)) == Pass
  {
  }
}
