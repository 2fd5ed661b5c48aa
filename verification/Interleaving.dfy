/** Verifications that overlap: the limiter's hooks in any order, and records written back late. */
module Interleaving {
  import opened Prelude
  import opened Records
  import opened MemoryKeyStore
  import opened Plugins
  import opened RateLimitRequests
  import opened Verification
  import Duration
  import FixedWindow
  import TokenBucket
  import Limiter = MemoryRateLimit

  // ----- Rate-limit hooks of concurrent verifications -----

  /** One run of a rate limiter's hook, on behalf of some verification, at one clock reading. */
  datatype HookCall = HookCall(plugin: Plugin, input: VerifyInput, now: int)

  predicate Legal(h: HookCall) {
    h.plugin.RateLimiter? && Refills(h.plugin.default) && Refills(h.input.rateLimit)
  }

  ghost predicate AllLegal(hooks: seq<HookCall>) {
    forall i :: 0 <= i < |hooks| ==> Legal(hooks[i])
  }

  /** The limiter after the hooks have run in this order. */
  function AfterHooks(hooks: seq<HookCall>): Limiter.Limiter
    requires AllLegal(hooks)
  {
    if hooks == [] then Limiter.EMPTY
    else
      var n := |hooks| - 1;
      RateLimitHook(hooks[n].plugin, hooks[n].input, AfterHooks(hooks[..n]), hooks[n].now).0
  }

  function VerdictAt(hooks: seq<HookCall>, i: nat): HookResult
    requires AllLegal(hooks) && i < |hooks|
  {
    RateLimitHook(hooks[i].plugin, hooks[i].input, AfterHooks(hooks[..i]), hooks[i].now).1
  }

  function RequestsOf(h: HookCall): seq<Timed>
    requires Legal(h)
  {
    match HookRequest(h.plugin, h.input)
    case None => []
    case Some(r) => [Timed(r, h.now)]
  }

  /** The requests that reach the store. */
  function Requests(hooks: seq<HookCall>): seq<Timed>
    requires AllLegal(hooks)
  {
    if hooks == [] then [] else Requests(hooks[..|hooks| - 1]) + RequestsOf(hooks[|hooks| - 1])
  }

  /** Any interleaving of hooks is a run of requests on the store. */
  lemma {:induction false} HooksAreRequests(hooks: seq<HookCall>)
    requires AllLegal(hooks)
    ensures AllDefined(Requests(hooks)) && AfterHooks(hooks) == Limiter.After(Requests(hooks))
  {
    if hooks != [] {
      var n := |hooks| - 1;
      var before := Requests(hooks[..n]);
      HooksAreRequests(hooks[..n]);
      HookIsOneRequest(hooks[n].plugin, hooks[n].input, AfterHooks(hooks[..n]), hooks[n].now);
      if HookRequest(hooks[n].plugin, hooks[n].input).Some? {
        assert Requests(hooks)[..|before|] == before;
      } else {
        assert Requests(hooks) == before;
      }
    }
  }

  /** The last hook adds at most its request, and passes exactly if that is granted. */
  lemma LastHook(hooks: seq<HookCall>)
    requires AllLegal(hooks) && hooks != []
    ensures var (n, before) := (|hooks| - 1, Requests(hooks[..|hooks| - 1]));
      AllDefined(before)
      && match HookRequest(hooks[n].plugin, hooks[n].input)
         case None => Requests(hooks) == before
         case Some(r) =>
           Defined(r) && Requests(hooks) == before + [Timed(r, hooks[n].now)]
           && (VerdictAt(hooks, n).Pass? <==>
                 Limiter.Serve(Limiter.After(before), r, hooks[n].now).1.outcome.success)
  {
    var n := |hooks| - 1;
    HooksAreRequests(hooks[..n]);
    HookIsOneRequest(hooks[n].plugin, hooks[n].input, AfterHooks(hooks[..n]), hooks[n].now);
  }

  lemma {:induction false} RequestsPrefix(hooks: seq<HookCall>, from: nat)
    requires AllLegal(hooks) && from <= |hooks|
    ensures Requests(hooks[..from]) <= Requests(hooks)
  {
    if from == |hooks| {
      assert hooks[..from] == hooks;
    } else {
      assert hooks[..|hooks| - 1][..from] == hooks[..from];
      RequestsPrefix(hooks[..|hooks| - 1], from);
    }
  }

  /** The hook makes a window request on this key. */
  predicate Counts(h: HookCall, key: string)
    requires h.plugin.RateLimiter?
  {
    var r := HookRequest(h.plugin, h.input);
    r.Some? && r.value.IncrementAndCheck? && Limiter.On(r.value, key)
  }

  /** How many hooks that count on `key` pass while the latest reading among them is in [from, to). */
  function PassesOn(hooks: seq<HookCall>, key: string, from: int, to: int): nat
    requires AllLegal(hooks)
  {
    if hooks == [] then 0
    else
      var n := |hooks| - 1;
      PassesOn(hooks[..n], key, from, to)
      + if Counts(hooks[n], key) && VerdictAt(hooks, n).Pass?
           && from <= Limiter.LatestHit(Requests(hooks), key) < to then 1 else 0
  }

  lemma GrantsLast(run: seq<Timed>, t: Timed, key: string, from: int, to: int)
    requires AllDefined(run) && Defined(t.request)
    ensures AllDefined(run + [t])
    ensures Limiter.GrantsOn(run + [t], key, from, to) == Limiter.GrantsOn(run, key, from, to)
      + if t.request.IncrementAndCheck? && Limiter.On(t.request, key)
           && Limiter.Serve(Limiter.After(run), t.request, t.now).1.outcome.success
           && from <= Limiter.LatestHit(run + [t], key) < to then 1 else 0
  {
    assert (run + [t])[..|run|] == run;
  }

  /** Hooks pass exactly when the store grants their requests. */
  lemma {:induction false} PassesAreGrants(hooks: seq<HookCall>, key: string, from: int, to: int)
    requires AllLegal(hooks)
    ensures AllDefined(Requests(hooks))
    ensures PassesOn(hooks, key, from, to) == Limiter.GrantsOn(Requests(hooks), key, from, to)
  {
    HooksAreRequests(hooks);
    if hooks != [] {
      var n := |hooks| - 1;
      PassesAreGrants(hooks[..n], key, from, to);
      LastHook(hooks);
      match HookRequest(hooks[n].plugin, hooks[n].input)
      case None =>
      case Some(r) => GrantsLast(Requests(hooks[..n]), Timed(r, hooks[n].now), key, from, to);
    }
  }

  /** Every hook that reaches this key applies one rule; hooks on other keys are free. */
  ghost predicate OneRule(hooks: seq<HookCall>, key: string, limit: int, d: int, c: TokenBucket.Config) {
    forall i :: 0 <= i < |hooks| && Legal(hooks[i]) ==>
      match HookRequest(hooks[i].plugin, hooks[i].input)
      case None => true
      case Some(r) => Limiter.Conforms(r, key, limit, d, c)
  }

  lemma {:induction false} RequestsConform(
      hooks: seq<HookCall>, key: string, limit: int, d: int, c: TokenBucket.Config)
    requires AllLegal(hooks) && OneRule(hooks, key, limit, d, c)
    ensures forall i :: 0 <= i < |Requests(hooks)| ==> Limiter.Conforms(Requests(hooks)[i].request, key, limit, d, c)
  {
    if hooks != [] {
      RequestsConform(hooks[..|hooks| - 1], key, limit, d, c);
    }
  }

  /**
   The interval bound holds for verifications: however concurrent ones interleave, whatever other
   traffic there is and even if the clock steps back, the hooks that count on a key let at most twice
   the quota less one pass in any interval as long as the rule's duration.
   */
  lemma PassesAreBounded(
      hooks: seq<HookCall>, key: string, limit: int, d: int, c: TokenBucket.Config, from: int)
    requires AllLegal(hooks) && OneRule(hooks, key, limit, d, c) && d > 0 && TokenBucket.Usable(c)
    ensures PassesOn(hooks, key, from, from + d) <= 2 * FixedWindow.Quota(limit) - 1
  {
    HooksAreRequests(hooks);
    RequestsConform(hooks, key, limit, d, c);
    PassesAreGrants(hooks, key, from, from + d);
    Limiter.IntervalBoundInterleaved(Requests(hooks), key, limit, d, c, from);
  }

  /** The hook makes a bucket request on this key. */
  predicate Draws(h: HookCall, key: string)
    requires h.plugin.RateLimiter?
  {
    var r := HookRequest(h.plugin, h.input);
    r.Some? && r.value.ConsumeTokenBucket? && Limiter.On(r.value, key)
  }

  /** What the last hook costs this key: its cost if it draws on it and passes. */
  function LastCost(hooks: seq<HookCall>, key: string): real
    requires AllLegal(hooks) && hooks != []
  {
    var n := |hooks| - 1;
    if Draws(hooks[n], key) && VerdictAt(hooks, n).Pass?
    then HookRequest(hooks[n].plugin, hooks[n].input).value.cost else 0.0
  }

  /** The cost of the hooks that draw on `key` and let their verification pass. */
  function CostOfHooks(hooks: seq<HookCall>, key: string): real
    requires AllLegal(hooks)
  {
    if hooks == [] then 0.0 else CostOfHooks(hooks[..|hooks| - 1], key) + LastCost(hooks, key)
  }

  /** The same from hook number `from` on. */
  function SpentByHooks(hooks: seq<HookCall>, key: string, from: nat): real
    requires AllLegal(hooks) && from <= |hooks|
  {
    CostOfHooks(hooks, key) - CostOfHooks(hooks[..from], key)
  }

  lemma LastCostIsGranted(hooks: seq<HookCall>, key: string)
    requires AllLegal(hooks) && hooks != []
    ensures var (all, before) := (Requests(hooks), Requests(hooks[..|hooks| - 1]));
      AllDefined(all)
      && LastCost(hooks, key) == if |all| == |before| then 0.0 else Limiter.LastCost(all, key)
  {
    var before := Requests(hooks[..|hooks| - 1]);
    LastHook(hooks);
    if |Requests(hooks)| > |before| {
      assert Requests(hooks)[..|before|] == before;
    }
  }

  /** What the hooks that pass have cost is what the store has granted. */
  lemma {:induction false} CostIsGranted(hooks: seq<HookCall>, key: string)
    requires AllLegal(hooks)
    ensures AllDefined(Requests(hooks)) && CostOfHooks(hooks, key) == Limiter.CostOn(Requests(hooks), key)
  {
    HooksAreRequests(hooks);
    if hooks != [] {
      var before := Requests(hooks[..|hooks| - 1]);
      CostIsGranted(hooks[..|hooks| - 1], key);
      LastHook(hooks);
      LastCostIsGranted(hooks, key);
      assert |Requests(hooks)| > |before| ==> Requests(hooks)[..|before|] == before;
    }
  }

  /** No hook that draws on this key asks for a negative cost. */
  ghost predicate FairlyPriced(hooks: seq<HookCall>, key: string)
    requires AllLegal(hooks)
  {
    forall i :: 0 <= i < |hooks| && Draws(hooks[i], key) ==>
      HookRequest(hooks[i].plugin, hooks[i].input).value.cost >= 0.0
  }

  lemma {:induction false} RequestsPriced(hooks: seq<HookCall>, key: string)
    requires AllLegal(hooks) && FairlyPriced(hooks, key)
    ensures Limiter.Priced(Requests(hooks), key)
  {
    if hooks != [] { RequestsPriced(hooks[..|hooks| - 1], key); }
  }

  /** The bucket calls that hooks make on this key. */
  function CallsBy(hooks: seq<HookCall>, key: string): seq<TokenBucket.Call>
    requires AllLegal(hooks)
  {
    Limiter.CallsOn(Requests(hooks), key)
  }

  /** One hook more adds its request at the end. */
  lemma NextRequest(hooks: seq<HookCall>, from: nat)
    requires AllLegal(hooks) && from < |hooks| && HookRequest(hooks[from].plugin, hooks[from].input).Some?
    ensures Requests(hooks[..from + 1])
      == Requests(hooks[..from]) + [Timed(HookRequest(hooks[from].plugin, hooks[from].input).value, hooks[from].now)]
  {
    assert hooks[..from + 1][..from] == hooks[..from];
  }

  /** Where the request of a hook stands among all requests. */
  lemma PlaceOf(hooks: seq<HookCall>, key: string, from: nat)
    requires AllLegal(hooks) && from < |hooks| && Draws(hooks[from], key)
    ensures |Requests(hooks[..from])| < |Requests(hooks)|
    ensures Requests(hooks)[..|Requests(hooks[..from])|] == Requests(hooks[..from])
    ensures Requests(hooks)[|Requests(hooks[..from])|].request
         == HookRequest(hooks[from].plugin, hooks[from].input).value
  {
    var (all, upTo) := (Requests(hooks), Requests(hooks[..from + 1]));
    NextRequest(hooks, from);
    RequestsPrefix(hooks, from + 1);
    assert all[..|upTo|] == upTo;
  }

  /**
   Burst plus rate holds for verifications: from any hook that draws on a key on, the hooks that pass
   cost at most the capacity and what is earned meanwhile, however concurrent verifications
   interleave and even if the clock steps back.
   */
  lemma DrawsAreBounded(
      hooks: seq<HookCall>, key: string, limit: int, d: int, c: TokenBucket.Config, from: nat)
    requires AllLegal(hooks) && OneRule(hooks, key, limit, d, c) && FairlyPriced(hooks, key)
    requires TokenBucket.Usable(c) && c.capacity >= 0.0 && from < |hooks| && Draws(hooks[from], key)
    ensures |CallsBy(hooks[..from], key)| < |CallsBy(hooks, key)|
    ensures SpentByHooks(hooks, key, from)
      <= TokenBucket.AllowedSince(c, CallsBy(hooks, key), |CallsBy(hooks[..from], key)|)
  {
    HooksAreRequests(hooks);
    RequestsConform(hooks, key, limit, d, c);
    RequestsPriced(hooks, key);
    CostIsGranted(hooks, key);
    CostIsGranted(hooks[..from], key);
    PlaceOf(hooks, key, from);
    Limiter.BurstPlusRateInterleaved(Requests(hooks), key, limit, d, c, |Requests(hooks[..from])|);
  }

  // ----- What a plugin's own rule promises -----

  /** This hook applies this rule to this namespace and identity: the call's own rule, else the plugin's default. */
  predicate UnderRule(h: HookCall, namespace: string, id: string, rule: RateLimit) {
    namespace != "" && id != "" && h.plugin.RateLimiter?
    && h.input.namespace == Some(namespace) && h.plugin.identify(h.input) == Some(id)
    && (if h.input.rateLimit.Some? then h.input.rateLimit else h.plugin.default) == Some(rule)
  }

  /** This hook limits nobody, or somebody whose counter is another. */
  predicate Elsewhere(h: HookCall, key: string)
    requires h.plugin.RateLimiter?
  {
    Blank(h.input.namespace) || Blank(h.plugin.identify(h.input))
    || Limiter.Key(h.input.namespace.value, h.plugin.identify(h.input).value) != key
  }

  /** All hooks that meet in the counter of this pair apply one rule to it. */
  ghost predicate SharedRule(hooks: seq<HookCall>, namespace: string, id: string, rule: RateLimit)
    requires AllLegal(hooks)
  {
    forall i :: 0 <= i < |hooks| ==>
      UnderRule(hooks[i], namespace, id, rule) || Elsewhere(hooks[i], Limiter.Key(namespace, id))
  }

  /** The clock readings of the hooks under the rule. */
  function ReadingsUnder(hooks: seq<HookCall>, namespace: string, id: string, rule: RateLimit): seq<int> {
    if hooks == [] then []
    else
      var h := hooks[|hooks| - 1];
      ReadingsUnder(hooks[..|hooks| - 1], namespace, id, rule)
      + if UnderRule(h, namespace, id, rule) then [h.now] else []
  }

  /** A configuration no bucket of these hooks need have: their rule is a window. */
  const ANY_BUCKET := TokenBucket.Config(1.0, 1.0, 1.0)

  lemma FixedRequest(h: HookCall, namespace: string, id: string, limit: int, duration: Duration.Input, d: int)
    requires Legal(h) && Duration.ParseDuration(duration) == Some(d)
    ensures UnderRule(h, namespace, id, Fixed(limit, duration)) ==>
      HookRequest(h.plugin, h.input) == Some(IncrementAndCheck(namespace, id, limit, d))
    ensures Elsewhere(h, Limiter.Key(namespace, id)) && HookRequest(h.plugin, h.input).Some? ==>
      !Limiter.On(HookRequest(h.plugin, h.input).value, Limiter.Key(namespace, id))
  {
    if HookRequest(h.plugin, h.input).Some? { HookRequestIsFor(h.plugin, h.input); }
  }

  lemma FixedIsOneRule(
      hooks: seq<HookCall>, namespace: string, id: string, limit: int, duration: Duration.Input, d: int)
    requires AllLegal(hooks) && SharedRule(hooks, namespace, id, Fixed(limit, duration))
    requires Duration.ParseDuration(duration) == Some(d)
    ensures OneRule(hooks, Limiter.Key(namespace, id), limit, d, ANY_BUCKET)
  {
    forall i | 0 <= i < |hooks|
      ensures match HookRequest(hooks[i].plugin, hooks[i].input)
              case None => true
              case Some(r) => Limiter.Conforms(r, Limiter.Key(namespace, id), limit, d, ANY_BUCKET)
    {
      FixedRequest(hooks[i], namespace, id, limit, duration, d);
    }
  }

  lemma {:induction false} FixedReadings(
      hooks: seq<HookCall>, namespace: string, id: string, limit: int, duration: Duration.Input, d: int)
    requires AllLegal(hooks) && SharedRule(hooks, namespace, id, Fixed(limit, duration))
    requires Duration.ParseDuration(duration) == Some(d)
    ensures Limiter.HitsOn(Requests(hooks), Limiter.Key(namespace, id))
         == ReadingsUnder(hooks, namespace, id, Fixed(limit, duration))
  {
    if hooks != [] {
      var n := |hooks| - 1;
      var (before, key) := (Requests(hooks[..n]), Limiter.Key(namespace, id));
      FixedReadings(hooks[..n], namespace, id, limit, duration, d);
      FixedRequest(hooks[n], namespace, id, limit, duration, d);
      LastHook(hooks);
      match HookRequest(hooks[n].plugin, hooks[n].input)
      case None =>
      case Some(r) =>
        assert Requests(hooks)[..|before|] == before;
    }
  }

  /**
   A hook under a fixed rule answers as that rule's own window does: with its limit, its parsed
   duration, and the readings of the hooks that applied it before.
   */
  lemma FixedRuleDecides(
      hooks: seq<HookCall>, namespace: string, id: string, limit: int, duration: Duration.Input, d: int, i: nat)
    requires AllLegal(hooks) && SharedRule(hooks, namespace, id, Fixed(limit, duration))
    requires Duration.ParseDuration(duration) == Some(d)
    requires i < |hooks| && UnderRule(hooks[i], namespace, id, Fixed(limit, duration))
    ensures var readings := ReadingsUnder(hooks[..i], namespace, id, Fixed(limit, duration));
      VerdictAt(hooks, i) ==
        if FixedWindow.OutcomeAt(limit, d, readings + [hooks[i].now], |readings|).success
        then Pass else Reject(hooks[i].plugin.reason)
  {
    var (before, key) := (hooks[..i], Limiter.Key(namespace, id));
    HooksAreRequests(before);
    HookIsOneRequest(hooks[i].plugin, hooks[i].input, AfterHooks(before), hooks[i].now);
    FixedRequest(hooks[i], namespace, id, limit, duration, d);
    FixedIsOneRule(before, namespace, id, limit, duration, d);
    RequestsConform(before, key, limit, d, ANY_BUCKET);
    Limiter.RunsAlone(Requests(before), key, limit, d, ANY_BUCKET);
    FixedReadings(before, namespace, id, limit, duration, d);
    FixedWindow.HitLast(limit, d, ReadingsUnder(before, namespace, id, Fixed(limit, duration)), hooks[i].now);
  }

  /** How many hooks under the rule pass while the latest reading among them is in [from, to). */
  function PassesUnder(
      hooks: seq<HookCall>, namespace: string, id: string, rule: RateLimit, from: int, to: int): nat
    requires AllLegal(hooks)
  {
    if hooks == [] then 0
    else
      var (n, readings) := (|hooks| - 1, ReadingsUnder(hooks, namespace, id, rule));
      PassesUnder(hooks[..n], namespace, id, rule, from, to)
      + if UnderRule(hooks[n], namespace, id, rule) && VerdictAt(hooks, n).Pass?
           && from <= FixedWindow.Latest(readings) < to then 1 else 0
  }

  lemma {:induction false} PassesUnderCount(
      hooks: seq<HookCall>, namespace: string, id: string, limit: int, duration: Duration.Input, d: int,
      from: int, to: int)
    requires AllLegal(hooks) && SharedRule(hooks, namespace, id, Fixed(limit, duration))
    requires Duration.ParseDuration(duration) == Some(d)
    ensures PassesUnder(hooks, namespace, id, Fixed(limit, duration), from, to)
         == PassesOn(hooks, Limiter.Key(namespace, id), from, to)
  {
    if hooks != [] {
      var n := |hooks| - 1;
      PassesUnderCount(hooks[..n], namespace, id, limit, duration, d, from, to);
      FixedRequest(hooks[n], namespace, id, limit, duration, d);
      FixedReadings(hooks, namespace, id, limit, duration, d);
    }
  }

  /**
   The interval bound of a fixed rule: at most twice its quota less one pass it in any interval as
   long as its duration, however verifications interleave, and under any clock.
   */
  lemma FixedRuleBounds(
      hooks: seq<HookCall>, namespace: string, id: string, limit: int, duration: Duration.Input, d: int, from: int)
    requires AllLegal(hooks) && SharedRule(hooks, namespace, id, Fixed(limit, duration))
    requires Duration.ParseDuration(duration) == Some(d) && d > 0
    ensures PassesUnder(hooks, namespace, id, Fixed(limit, duration), from, from + d)
      <= 2 * FixedWindow.Quota(limit) - 1
  {
    FixedIsOneRule(hooks, namespace, id, limit, duration, d);
    PassesUnderCount(hooks, namespace, id, limit, duration, d, from, from + d);
    PassesAreBounded(hooks, Limiter.Key(namespace, id), limit, d, ANY_BUCKET, from);
  }

  ghost predicate AllUnder(hooks: seq<HookCall>, namespace: string, id: string, rule: RateLimit) {
    forall i :: 0 <= i < |hooks| ==> UnderRule(hooks[i], namespace, id, rule)
  }

  lemma {:induction false} AllReadings(hooks: seq<HookCall>, namespace: string, id: string, rule: RateLimit)
    requires AllUnder(hooks, namespace, id, rule)
    ensures var readings := ReadingsUnder(hooks, namespace, id, rule);
      |readings| == |hooks| && forall i :: 0 <= i < |hooks| ==> readings[i] == hooks[i].now
  {
    if hooks != [] { AllReadings(hooks[..|hooks| - 1], namespace, id, rule); }
  }

  /** Within one duration of the first of them, just as many hooks pass a fixed rule as its limit says. */
  lemma FixedRuleInOneWindow(
      hooks: seq<HookCall>, namespace: string, id: string, limit: int, duration: Duration.Input, d: int, i: nat)
    requires AllLegal(hooks) && AllUnder(hooks, namespace, id, Fixed(limit, duration)) && i < |hooks|
    requires Duration.ParseDuration(duration) == Some(d) && d > 0 && limit >= 1
    requires forall j :: 0 <= j < |hooks| ==> hooks[j].now < hooks[0].now + d
    ensures VerdictAt(hooks, i) == if i < limit then Pass else Reject(hooks[i].plugin.reason)
  {
    var rule := Fixed(limit, duration);
    var readings := ReadingsUnder(hooks[..i], namespace, id, rule);
    FixedRuleDecides(hooks, namespace, id, limit, duration, d, i);
    AllReadings(hooks[..i], namespace, id, rule);
    FixedWindow.OneWindow(limit, d, readings + [hooks[i].now], i);
  }

  /** What a hook under a bucket rule asks for: the rule's cost, one token when it names none. */
  function Price(rule: RateLimit): real
    requires rule.Bucket?
  {
    match rule.cost case Some(x) => x case None => 1.0
  }

  /** The calls of the hooks under a bucket rule. */
  function CallsUnder(hooks: seq<HookCall>, namespace: string, id: string, rule: RateLimit): seq<TokenBucket.Call>
    requires rule.Bucket?
  {
    if hooks == [] then []
    else
      var h := hooks[|hooks| - 1];
      CallsUnder(hooks[..|hooks| - 1], namespace, id, rule)
      + if UnderRule(h, namespace, id, rule) then [TokenBucket.Call(h.now, Price(rule))] else []
  }

  lemma BucketRequest(h: HookCall, namespace: string, id: string, rule: RateLimit, ms: int)
    requires Legal(h) && rule.Bucket? && Duration.ParseDuration(rule.interval) == Some(ms)
    ensures UnderRule(h, namespace, id, rule) ==>
      HookRequest(h.plugin, h.input) == Some(ConsumeTokenBucket(namespace, id,
        TokenBucket.Config(rule.capacity, rule.refillTokens, ms as real), Price(rule)))
      && TokenBucket.Usable(TokenBucket.Config(rule.capacity, rule.refillTokens, ms as real))
    ensures Elsewhere(h, Limiter.Key(namespace, id)) && HookRequest(h.plugin, h.input).Some? ==>
      !Limiter.On(HookRequest(h.plugin, h.input).value, Limiter.Key(namespace, id))
  {
    if HookRequest(h.plugin, h.input).Some? { HookRequestIsFor(h.plugin, h.input); }
  }

  lemma BucketIsOneRule(hooks: seq<HookCall>, namespace: string, id: string, rule: RateLimit, ms: int)
    requires AllLegal(hooks) && SharedRule(hooks, namespace, id, rule)
    requires rule.Bucket? && Duration.ParseDuration(rule.interval) == Some(ms)
    ensures OneRule(hooks, Limiter.Key(namespace, id), 0, 0,
      TokenBucket.Config(rule.capacity, rule.refillTokens, ms as real))
  {
    forall i | 0 <= i < |hooks|
      ensures match HookRequest(hooks[i].plugin, hooks[i].input)
              case None => true
              case Some(r) => Limiter.Conforms(r, Limiter.Key(namespace, id), 0, 0,
                                TokenBucket.Config(rule.capacity, rule.refillTokens, ms as real))
    {
      BucketRequest(hooks[i], namespace, id, rule, ms);
    }
  }

  lemma {:induction false} BucketCalls(hooks: seq<HookCall>, namespace: string, id: string, rule: RateLimit, ms: int)
    requires AllLegal(hooks) && SharedRule(hooks, namespace, id, rule)
    requires rule.Bucket? && Duration.ParseDuration(rule.interval) == Some(ms)
    ensures CallsBy(hooks, Limiter.Key(namespace, id)) == CallsUnder(hooks, namespace, id, rule)
  {
    if hooks != [] {
      var n := |hooks| - 1;
      var before := Requests(hooks[..n]);
      BucketCalls(hooks[..n], namespace, id, rule, ms);
      BucketRequest(hooks[n], namespace, id, rule, ms);
      LastHook(hooks);
      match HookRequest(hooks[n].plugin, hooks[n].input)
      case None =>
      case Some(r) =>
        assert Requests(hooks)[..|before|] == before;
    }
  }

  /**
   A hook under a bucket rule answers as that rule's own bucket does: with its capacity, its refill
   over its parsed interval, and the price of the hooks that applied it before.
   */
  lemma BucketRuleDecides(
      hooks: seq<HookCall>, namespace: string, id: string, rule: RateLimit, ms: int, i: nat)
    requires AllLegal(hooks) && SharedRule(hooks, namespace, id, rule)
    requires rule.Bucket? && Duration.ParseDuration(rule.interval) == Some(ms)
    requires i < |hooks| && UnderRule(hooks[i], namespace, id, rule)
    ensures var c := TokenBucket.Config(rule.capacity, rule.refillTokens, ms as real);
      var calls := CallsUnder(hooks[..i], namespace, id, rule);
      TokenBucket.Usable(c)
      && VerdictAt(hooks, i) ==
        if TokenBucket.AnswerAt(c, calls + [TokenBucket.Call(hooks[i].now, Price(rule))], |calls|).success
        then Pass else Reject(hooks[i].plugin.reason)
  {
    var c := TokenBucket.Config(rule.capacity, rule.refillTokens, ms as real);
    var (before, key) := (hooks[..i], Limiter.Key(namespace, id));
    HooksAreRequests(before);
    HookIsOneRequest(hooks[i].plugin, hooks[i].input, AfterHooks(before), hooks[i].now);
    BucketRequest(hooks[i], namespace, id, rule, ms);
    BucketIsOneRule(before, namespace, id, rule, ms);
    RequestsConform(before, key, 0, 0, c);
    Limiter.RunsAlone(Requests(before), key, 0, 0, c);
    BucketCalls(before, namespace, id, rule, ms);
    Limiter.CallLast(c, CallsUnder(before, namespace, id, rule), hooks[i].now, Price(rule));
  }

  lemma {:induction false} AllCalls(hooks: seq<HookCall>, namespace: string, id: string, rule: RateLimit)
    requires rule.Bucket? && AllUnder(hooks, namespace, id, rule)
    ensures var calls := CallsUnder(hooks, namespace, id, rule);
      |calls| == |hooks| && forall i :: 0 <= i < |hooks| ==> calls[i] == TokenBucket.Call(hooks[i].now, Price(rule))
  {
    if hooks != [] { AllCalls(hooks[..|hooks| - 1], namespace, id, rule); }
  }

  /** At one moment just as many hooks pass a bucket rule as its capacity pays for. */
  lemma BucketRuleAtOnce(hooks: seq<HookCall>, namespace: string, id: string, rule: RateLimit, ms: int, i: nat)
    requires AllLegal(hooks) && rule.Bucket? && AllUnder(hooks, namespace, id, rule) && i < |hooks|
    requires Duration.ParseDuration(rule.interval) == Some(ms) && Price(rule) >= 0.0 && rule.capacity >= 0.0
    requires forall j :: 0 <= j < |hooks| ==> hooks[j].now == hooks[0].now
    ensures VerdictAt(hooks, i) ==
      if TokenBucket.Pays(rule.capacity, Price(rule), i + 1) then Pass else Reject(hooks[i].plugin.reason)
  {
    var c := TokenBucket.Config(rule.capacity, rule.refillTokens, ms as real);
    var calls := CallsUnder(hooks[..i], namespace, id, rule) + [TokenBucket.Call(hooks[i].now, Price(rule))];
    BucketRuleDecides(hooks, namespace, id, rule, ms, i);
    AllCalls(hooks[..i], namespace, id, rule);
    assert forall j :: 0 <= j < |calls| ==> calls[j] == TokenBucket.Call(hooks[0].now, Price(rule));
    TokenBucket.OneMoment(c, calls, hooks[0].now, Price(rule), i);
  }

  /**
   Over any traffic a bucket rule is exact: a hook passes if and only if, counted from every earlier
   hook under the rule and from itself, what was let through stays within the rule's capacity and its
   refill per interval, whatever the clock does.
   */
  lemma BucketRuleIsExact(hooks: seq<HookCall>, namespace: string, id: string, rule: RateLimit, ms: int, i: nat)
    requires AllLegal(hooks) && SharedRule(hooks, namespace, id, rule)
    requires rule.Bucket? && Duration.ParseDuration(rule.interval) == Some(ms) && Price(rule) >= 0.0
    requires i < |hooks| && UnderRule(hooks[i], namespace, id, rule)
    ensures var c := TokenBucket.Config(rule.capacity, rule.refillTokens, ms as real);
      var calls := CallsUnder(hooks[..i], namespace, id, rule) + [TokenBucket.Call(hooks[i].now, Price(rule))];
      TokenBucket.Usable(c)
      && (VerdictAt(hooks, i).Pass? <==> TokenBucket.WithinAlways(c, calls, |calls| - 1))
  {
    var c := TokenBucket.Config(rule.capacity, rule.refillTokens, ms as real);
    var calls := CallsUnder(hooks[..i], namespace, id, rule) + [TokenBucket.Call(hooks[i].now, Price(rule))];
    BucketRuleDecides(hooks, namespace, id, rule, ms, i);
    PricedAlike(hooks[..i], namespace, id, rule);
    TokenBucket.AdmissionIsExact(c, calls, |calls| - 1);
  }

  lemma {:induction false} PricedAlike(hooks: seq<HookCall>, namespace: string, id: string, rule: RateLimit)
    requires rule.Bucket?
    ensures forall i :: 0 <= i < |CallsUnder(hooks, namespace, id, rule)| ==>
      CallsUnder(hooks, namespace, id, rule)[i].cost == Price(rule)
  {
    if hooks != [] { PricedAlike(hooks[..|hooks| - 1], namespace, id, rule); }
  }

  // ----- Verifications that write back what they loaded earlier -----

  /** A verification that has accepted a record and not written it back; `stamp` counts the verdicts before it. */
  datatype Pending = Pending(record: Record, stamp: nat)

  /** The store, the verifications under way, and per key hash the valid verdicts and whether one was stale. */
  datatype State = State(keys: KeyMaps, pending: map<nat, Pending>, valid: multiset<string>, stale: set<string>)

  /** What verification number `v` does between awaits, once its beforeVerify hooks have let it pass. */
  datatype Step = Load(v: nat, input: VerifyInput, now: int) | Commit(v: nat)

  function Start(keys: KeyMaps): State {
    State(keys, map[], multiset{}, {})
  }

  /** From the look-up to the verdict. */
  function Loaded(cfg: Config, s: State, v: nat, input: VerifyInput, now: int): State {
    var found := Get(s.keys.byHash, cfg.hash(input.key));
    if v in s.pending || found.None? then s
    else
      var r := found.value;
      if Truthy(r.revokedAt) || LoadedHooks(cfg.plugins, 0, input, r).Some? then s
      else if ExpiredAt(r, now) then
        if cfg.autoDeleteExpiredKeys then s.(keys := Remove(s.keys, r.id)) else s
      else if UsedUp(r) then s
      else s.(pending := s.pending[v := Pending(r, s.valid[r.keyHash])])
  }

  /** The success hooks, which write back what was loaded; stale if the key had another verdict since. */
  function Committed(cfg: Config, s: State, v: nat): State {
    if v !in s.pending then s
    else
      var (r, stamp) := (s.pending[v].record, s.pending[v].stamp);
      State(SuccessHooks(cfg.plugins, 0, s.keys, r), s.pending - {v}, s.valid + multiset{r.keyHash},
            if stamp == s.valid[r.keyHash] then s.stale else s.stale + {r.keyHash})
  }

  function Do(cfg: Config, s: State, step: Step): State {
    match step
    case Load(v, input, now) => Loaded(cfg, s, v, input, now)
    case Commit(v) => Committed(cfg, s, v)
  }

  function DoAll(cfg: Config, keys: KeyMaps, steps: seq<Step>): State {
    if steps == [] then Start(keys) else Do(cfg, DoAll(cfg, keys, steps[..|steps| - 1]), steps[|steps| - 1])
  }

  /** Undisturbed, the two steps are a verification whose beforeVerify hooks let it pass. */
  lemma VerifyIsLoadThenCommit(
      cfg: Config, sys: System, input: VerifyInput, clock: nat -> int, returnMetadata: bool, v: nat)
    requires WellConfigured(cfg.plugins, input)
    requires BeforeHooks(cfg.plugins, 0, input, sys.limiter, clock).1.None?
    ensures var (verdict, after) := Verify(cfg, sys, input, clock, returnMetadata);
      var loaded := Loaded(cfg, Start(sys.keys), v, input, clock(|cfg.plugins|));
      (verdict.Valid? <==> v in loaded.pending) && after.keys == Committed(cfg, loaded, v).keys
  {
  }

  /** The record of this hash, in the store or under way, is the first one but for its uses. */
  predicate Descends(r: Record, first: Record) {
    r.usesRemaining.Some? && r == first.(usesRemaining := r.usesRemaining)
  }

  /** The uses gone from a record since the first. */
  function Gone(r: Record, first: Record): int
    requires Descends(r, first) && first.usesRemaining.Some?
  {
    first.usesRemaining.value - r.usesRemaining.value
  }

  /** No more uses are gone than verdicts were valid, and exactly as many unless one was stale. */
  predicate Accounted(s: State, first: Record, r: Record, verdicts: int) {
    first.usesRemaining.Some? && Descends(r, first) && Gone(r, first) <= verdicts
    && (verdicts == s.valid[first.keyHash] ==> (Gone(r, first) == verdicts <==> first.keyHash !in s.stale))
  }

  ghost predicate Ledger(s: State, first: Record) {
    && (forall h | h in s.keys.byHash :: s.keys.byHash[h].keyHash == h)
    && (first.keyHash in s.keys.byHash ==>
          Accounted(s, first, s.keys.byHash[first.keyHash], s.valid[first.keyHash]))
    && (forall v | v in s.pending && s.pending[v].record.keyHash == first.keyHash ::
          Accounted(s, first, s.pending[v].record, s.pending[v].stamp)
          && s.pending[v].stamp <= s.valid[first.keyHash] && s.pending[v].record.usesRemaining.value > 0)
  }

  lemma LoadKeepsLedger(cfg: Config, s: State, v: nat, input: VerifyInput, now: int, first: Record)
    requires Ledger(s, first)
    ensures Ledger(Loaded(cfg, s, v, input, now), first)
  {
  }

  lemma CommitKeepsLedger(cfg: Config, s: State, v: nat, first: Record)
    requires Ledger(s, first) && UsageLimits in cfg.plugins
    ensures Ledger(Committed(cfg, s, v), first)
  {
    if v in s.pending {
      OneUseIsSpent(cfg.plugins, 0, s.keys, s.pending[v].record);
    }
  }

  lemma {:induction false} LedgerHolds(cfg: Config, keys: KeyMaps, steps: seq<Step>, h: string)
    requires Inverse(keys) && h in keys.byHash && keys.byHash[h].usesRemaining.Some?
    requires UsageLimits in cfg.plugins
    ensures Ledger(DoAll(cfg, keys, steps), keys.byHash[h])
  {
    if steps != [] {
      var (before, first) := (DoAll(cfg, keys, steps[..|steps| - 1]), keys.byHash[h]);
      LedgerHolds(cfg, keys, steps[..|steps| - 1], h);
      match steps[|steps| - 1]
      case Load(v, input, now) => LoadKeepsLedger(cfg, before, v, input, now, first);
      case Commit(v) => CommitKeepsLedger(cfg, before, v, first);
    }
  }

  /**
   However verifications overlap, a key loses no more uses than it had valid verdicts, and exactly
   as many if and only if none of them wrote back a record that it had loaded before another one's
   write; the rest of the record stays as it was.
   */
  lemma UsesUnderOverlap(cfg: Config, keys: KeyMaps, steps: seq<Step>, h: string)
    requires Inverse(keys) && h in keys.byHash && keys.byHash[h].usesRemaining.Some?
    requires UsageLimits in cfg.plugins
    ensures var (s, first) := (DoAll(cfg, keys, steps), keys.byHash[h]);
      h in s.keys.byHash ==>
        Descends(s.keys.byHash[h], first)
        && Gone(s.keys.byHash[h], first) <= s.valid[h]
        && (Gone(s.keys.byHash[h], first) == s.valid[h] <==> h !in s.stale)
  {
    LedgerHolds(cfg, keys, steps, h);
  }

  lemma DoLast(cfg: Config, keys: KeyMaps, steps: seq<Step>, last: Step)
    ensures DoAll(cfg, keys, steps + [last]) == Do(cfg, DoAll(cfg, keys, steps), last)
  {
    assert (steps + [last])[..|steps|] == steps;
  }

  /** Two verifications that load a usable key one after the other hold the same record. */
  lemma BothLoad(cfg: Config, keys: KeyMaps, input: VerifyInput, now: int, r: Record)
    requires Get(keys.byHash, cfg.hash(input.key)) == Some(r) && cfg.plugins == [UsageLimits]
    requires r.usesRemaining == Some(1) && !Truthy(r.revokedAt) && !ExpiredAt(r, now)
    ensures DoAll(cfg, keys, [Load(0, input, now)] + [Load(1, input, now)])
      == Start(keys).(pending := map[0 := Pending(r, 0), 1 := Pending(r, 0)])
  {
    assert LoadedHooks(cfg.plugins, 0, input, r).None?;
    DoLast(cfg, keys, [], Load(0, input, now));
    assert [] + [Load(0, input, now)] == [Load(0, input, now)];
    DoLast(cfg, keys, [Load(0, input, now)], Load(1, input, now));
  }

  /** A key with one use left, verified twice at once: two valid verdicts, one use gone. */
  lemma OneUseServesTwo(cfg: Config, keys: KeyMaps, input: VerifyInput, now: int, r: Record)
    requires Get(keys.byHash, r.keyHash) == Some(r) && cfg.hash(input.key) == r.keyHash
    requires cfg.plugins == [UsageLimits]
    requires r.usesRemaining == Some(1) && !Truthy(r.revokedAt) && !ExpiredAt(r, now)
    ensures var s := DoAll(cfg, keys, [Load(0, input, now)] + [Load(1, input, now)] + [Commit(0)] + [Commit(1)]);
      s.valid == multiset{r.keyHash, r.keyHash} && s.stale == {r.keyHash}
      && Get(s.keys.byHash, r.keyHash) == Some(r.(usesRemaining := Some(0)))
  {
    var loads := [Load(0, input, now)] + [Load(1, input, now)];
    BothLoad(cfg, keys, input, now, r);
    DoLast(cfg, keys, loads, Commit(0));
    DoLast(cfg, keys, loads + [Commit(0)], Commit(1));
    OneUseIsSpent(cfg.plugins, 0, keys, r);
    OneUseIsSpent(cfg.plugins, 0, Put(keys, r.(usesRemaining := Some(0))), r);
  }
  // ----- Revocation and removal while verifications are under way -----

  /**
   The memory store's record objects, by number: which object each hash leads to, and which one each
   verification under way holds. Revocation assigns inside the stored object, removal drops it from the
   index; a write-back stores a new object, a copy of the held one as it is by then.
   */
  datatype Shared = Shared(objects: seq<Record>, stored: map<string, nat>, held: map<nat, nat>)

  ghost predicate Sound(s: Shared) {
    (forall h | h in s.stored :: s.stored[h] < |s.objects| && s.objects[s.stored[h]].keyHash == h)
    && forall v | v in s.held :: s.held[v] < |s.objects|
  }

  /** A verification accepts the record it found, or writes it back; somebody revokes or removes the key. */
  datatype Move = Accept(v: nat, h: string) | WriteBack(v: nat) | RevokeNow(h: string, now: int) | RemoveNow(h: string)

  predicate Spendable(r: Record) {
    r.usesRemaining.Some? && r.usesRemaining.value > 0
  }

  function Moved(s: Shared, m: Move): (t: Shared)
    requires Sound(s)
    ensures Sound(t)
  {
    match m
    case Accept(v, h) =>
      if v in s.held || h !in s.stored || Truthy(s.objects[s.stored[h]].revokedAt) || UsedUp(s.objects[s.stored[h]])
      then s else s.(held := s.held[v := s.stored[h]])
    case WriteBack(v) =>
      if v !in s.held then s
      else
        var r := s.objects[s.held[v]];
        if !Spendable(r) then s.(held := s.held - {v})
        else Shared(s.objects + [r.(usesRemaining := Some(r.usesRemaining.value - 1))],
                    s.stored[r.keyHash := |s.objects|], s.held - {v})
    case RevokeNow(h, now) =>
      if h !in s.stored then s
      else s.(objects := s.objects[s.stored[h] := s.objects[s.stored[h]].(revokedAt := Some(now))])
    case RemoveNow(h) => s.(stored := s.stored - {h})
  }

  function MovedAll(s: Shared, moves: seq<Move>): (t: Shared)
    requires Sound(s)
    ensures Sound(t)
  {
    if moves == [] then s else Moved(MovedAll(s, moves[..|moves| - 1]), moves[|moves| - 1])
  }

  /** The records a look-up by hash finds. */
  function Seen(s: Shared): map<string, Record>
    requires Sound(s)
  {
    map h | h in s.stored :: s.objects[s.stored[h]]
  }

  /** Seen from outside, an accept is a look-up: it holds the stored object itself, and only if checks allow. */
  lemma AcceptIsLoad(cfg: Config, s: Shared, v: nat, input: VerifyInput, now: int, byId: map<string, Record>)
    requires Sound(s) && v !in s.held && cfg.plugins == [UsageLimits]
    requires forall r | Get(Seen(s), cfg.hash(input.key)) == Some(r) :: !ExpiredAt(r, now)
    ensures var loaded := Loaded(cfg, Start(KeyMaps(Seen(s), byId)), v, input, now);
      var t := Moved(s, Accept(v, cfg.hash(input.key)));
      (v in t.held <==> v in loaded.pending) && t == s.(held := t.held) && t.held - {v} == s.held
      && (v in t.held ==> cfg.hash(input.key) in s.stored && t.held[v] == s.stored[cfg.hash(input.key)]
                          && loaded.pending[v].record == s.objects[t.held[v]])
  {
    var h := cfg.hash(input.key);
    assert s.held - {v} == s.held;
    if h in s.stored {
      var r := s.objects[s.stored[h]];
      assert Get(Seen(s), h) == Some(r);
      assert LoadedHooks(cfg.plugins, 1, input, r) == None;
      assert LoadedHooks(cfg.plugins, 0, input, r).Some? <==> UsedUp(r);
    } else {
      assert Get(Seen(s), h) == None;
    }
  }

  /** Seen from outside, a write-back is the usage plugin's write. */
  lemma WriteBackIsStoreCall(s: Shared, v: nat, byId: map<string, Record>)
    requires Sound(s) && v in s.held
    ensures Seen(Moved(s, WriteBack(v)))
      == OnVerifySuccess(UsageLimits, KeyMaps(Seen(s), byId), s.objects[s.held[v]]).byHash
  {
  }

  /** A revocation is the store's own. */
  lemma RevocationIsStoreCall(s: Shared, h: string, now: int, byId: map<string, Record>)
    requires Sound(s) && h in s.stored && Get(byId, Seen(s)[h].id) == Some(Seen(s)[h])
    ensures Seen(Moved(s, RevokeNow(h, now))) == Revoke(KeyMaps(Seen(s), byId), Seen(s)[h].id, now).byHash
  {
  }

  /** And so is a removal. */
  lemma RemovalIsStoreCall(s: Shared, h: string, byId: map<string, Record>)
    requires Sound(s) && h in s.stored && Get(byId, Seen(s)[h].id) == Some(Seen(s)[h])
    ensures Seen(Moved(s, RemoveNow(h))) == Remove(KeyMaps(Seen(s), byId), Seen(s)[h].id).byHash
  {
  }

  /** This verification holds an object of the key that a revocation of the stored one does not reach. */
  predicate Late(s: Shared, v: nat, h: string)
    requires Sound(s) && h in s.stored
  {
    v in s.held && s.held[v] != s.stored[h]
    && var r := s.objects[s.held[v]]; r.keyHash == h && Spendable(r) && !Truthy(r.revokedAt)
  }

  /** No look-up finds the key unrevoked. */
  predicate NeverUnrevoked(s: Shared, h: string)
    requires Sound(s)
  {
    h in s.stored ==> Truthy(s.objects[s.stored[h]].revokedAt)
  }

  /** That holds, and of every copy of the key that could still be written back. */
  ghost predicate FullyRevoked(s: Shared, h: string)
    requires Sound(s)
  {
    NeverUnrevoked(s, h)
    && forall v | v in s.held && s.objects[s.held[v]].keyHash == h && Spendable(s.objects[s.held[v]]) ::
         Truthy(s.objects[s.held[v]].revokedAt)
  }

  predicate ClockRuns(moves: seq<Move>) {
    forall i :: 0 <= i < |moves| && moves[i].RevokeNow? ==> moves[i].now != 0
  }

  lemma FullyRevokedStep(s: Shared, m: Move, h: string)
    requires Sound(s) && FullyRevoked(s, h) && (m.RevokeNow? ==> m.now != 0)
    ensures FullyRevoked(Moved(s, m), h)
  {
  }

  lemma {:induction false} StaysFullyRevoked(s: Shared, moves: seq<Move>, h: string)
    requires Sound(s) && FullyRevoked(s, h) && ClockRuns(moves)
    ensures FullyRevoked(MovedAll(s, moves), h)
  {
    if moves != [] {
      StaysFullyRevoked(s, moves[..|moves| - 1], h);
      FullyRevokedStep(MovedAll(s, moves[..|moves| - 1]), moves[|moves| - 1], h);
    }
  }

  /**
   A revocation holds, however verifications under way go on, if and only if at that moment none of
   them holds a late copy of the key: one loaded before another verification wrote its own back.
   */
  lemma RevocationHoldsIff(s: Shared, h: string, now: int)
    requires Sound(s) && h in s.stored && now != 0
    ensures var revoked := Moved(s, RevokeNow(h, now));
      (forall moves | ClockRuns(moves) :: NeverUnrevoked(MovedAll(revoked, moves), h)) <==> forall v :: !Late(s, v, h)
  {
    var revoked := Moved(s, RevokeNow(h, now));
    if v :| Late(s, v, h) {
      assert MovedAll(revoked, []) == revoked;
      assert ClockRuns([WriteBack(v)]) && [WriteBack(v)][..0] == [];
      assert !NeverUnrevoked(MovedAll(revoked, [WriteBack(v)]), h);
    } else {
      forall v | v in revoked.held && revoked.objects[revoked.held[v]].keyHash == h
                 && Spendable(revoked.objects[revoked.held[v]])
        ensures Truthy(revoked.objects[revoked.held[v]].revokedAt)
      {
        assert !Late(s, v, h);
      }
      forall moves | ClockRuns(moves) ensures NeverUnrevoked(MovedAll(revoked, moves), h) {
        StaysFullyRevoked(revoked, moves, h);
      }
    }
  }

  predicate StoredAfter(s: Shared, moves: seq<Move>, h: string)
    requires Sound(s)
  {
    h in MovedAll(s, moves).stored
  }

  /** This verification holds an object of the key that it can still write back. */
  predicate Resurrects(s: Shared, v: nat, h: string)
    requires Sound(s)
  {
    v in s.held && s.objects[s.held[v]].keyHash == h && Spendable(s.objects[s.held[v]])
  }

  lemma {:induction false} StaysRemoved(s: Shared, moves: seq<Move>, h: string)
    requires Sound(s) && h !in s.stored && forall v :: !Resurrects(s, v, h)
    ensures h !in MovedAll(s, moves).stored && forall v :: !Resurrects(MovedAll(s, moves), v, h)
  {
    if moves != [] {
      StaysRemoved(s, moves[..|moves| - 1], h);
      RemovedStep(MovedAll(s, moves[..|moves| - 1]), moves[|moves| - 1], h);
    }
  }

  lemma RemovedStep(s: Shared, m: Move, h: string)
    requires Sound(s) && h !in s.stored && forall v :: !Resurrects(s, v, h)
    ensures h !in Moved(s, m).stored && forall v :: !Resurrects(Moved(s, m), v, h)
  {
    forall v ensures !Resurrects(Moved(s, m), v, h) {
      assert !Resurrects(s, v, h);
    }
    assert m.WriteBack? ==> !Resurrects(s, m.v, h);
  }

  /**
   A removal holds, however verifications under way go on, if and only if at that moment none of them
   holds a copy of the key with uses left to spend: each such copy would be written back.
   */
  lemma RemovalHoldsIff(s: Shared, h: string)
    requires Sound(s)
    ensures var removed := Moved(s, RemoveNow(h));
      (forall moves :: !StoredAfter(removed, moves, h)) <==> forall v :: !Resurrects(s, v, h)
  {
    var removed := Moved(s, RemoveNow(h));
    if v :| Resurrects(s, v, h) {
      assert MovedAll(removed, []) == removed && [WriteBack(v)][..0] == [];
      assert StoredAfter(removed, [WriteBack(v)], h);
    } else {
      forall v ensures !Resurrects(removed, v, h) {
        assert !Resurrects(s, v, h);
      }
      forall moves ensures !StoredAfter(removed, moves, h) {
        StaysRemoved(removed, moves, h);
      }
    }
  }

  lemma MovedLast(s: Shared, moves: seq<Move>, last: Move)
    requires Sound(s)
    ensures MovedAll(s, moves + [last]) == Moved(MovedAll(s, moves), last)
  {
    assert (moves + [last])[..|moves|] == moves;
  }

  /** A store that holds one object, with no verification under way. */
  function Holding(r: Record): (s: Shared)
    ensures Sound(s)
  {
    Shared([r], map[r.keyHash := 0], map[])
  }

  /** Two verifications accept a key, one writes it back, the key is revoked, the other undoes that. */
  lemma LateWriteUndoesRevocation(r: Record, now: int)
    requires r.usesRemaining == Some(2) && r.revokedAt == None
    ensures var h := r.keyHash;
      var s := MovedAll(Holding(r),
        [Accept(0, h)] + [Accept(1, h)] + [WriteBack(1)] + [RevokeNow(h, now)] + [WriteBack(0)]);
      Get(Seen(s), r.keyHash) == Some(r.(usesRemaining := Some(1)))
  {
    var (h, one) := (r.keyHash, r.(usesRemaining := Some(1)));
    var s0 := Holding(r);
    var accepts := [Accept(0, h)] + [Accept(1, h)];
    assert [] + [Accept(0, h)] == [Accept(0, h)];
    MovedLast(s0, [], Accept(0, h));
    MovedLast(s0, [Accept(0, h)], Accept(1, h));
    MovedLast(s0, accepts, WriteBack(1));
    assert MovedAll(s0, accepts + [WriteBack(1)]) == Shared([r, one], map[h := 1], map[0 := 0]);
    MovedLast(s0, accepts + [WriteBack(1)], RevokeNow(h, now));
    MovedLast(s0, accepts + [WriteBack(1)] + [RevokeNow(h, now)], WriteBack(0));
  }
  /** A verification that has accepted the one key there is. */
  lemma AcceptedOnly(r: Record)
    requires r.usesRemaining == Some(1) && r.revokedAt == None
    ensures MovedAll(Holding(r), [Accept(0, r.keyHash)]) == Shared([r], map[r.keyHash := 0], map[0 := 0])
  {
    assert [] + [Accept(0, r.keyHash)] == [Accept(0, r.keyHash)];
    MovedLast(Holding(r), [], Accept(0, r.keyHash));
  }

  lemma RemovedOnly(r: Record)
    requires r.usesRemaining == Some(1)
    ensures var s := Shared([r], map[r.keyHash := 0], map[0 := 0]);
      Sound(s) && Moved(s, RemoveNow(r.keyHash)) == Shared([r], map[], map[0 := 0])
    ensures var s := Shared([r], map[], map[0 := 0]);
      Sound(s) && Get(Seen(Moved(s, WriteBack(0))), r.keyHash) == Some(r.(usesRemaining := Some(0)))
  {
  }

  /** A verification accepts a key, the key is removed, and the write-back stores it again. */
  lemma LateWriteUndoesRemoval(r: Record)
    requires r.usesRemaining == Some(1) && r.revokedAt == None
    ensures var h := r.keyHash;
      var s := MovedAll(Holding(r), [Accept(0, h)] + [RemoveNow(h)] + [WriteBack(0)]);
      Get(Seen(s), h) == Some(r.(usesRemaining := Some(0)))
  {
    var (h, s0) := (r.keyHash, Holding(r));
    AcceptedOnly(r);
    MovedLast(s0, [Accept(0, h)], RemoveNow(h));
    RemovedOnly(r);
    MovedLast(s0, [Accept(0, h)] + [RemoveNow(h)], WriteBack(0));
  }
}
