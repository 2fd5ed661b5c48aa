/**
 The fixed-window counter that every rate-limit store implements, on values, and
 what it guarantees over a whole run at one constant limit and duration.
 */
module FixedWindow {
  import opened Prelude

  /** What every limiter call answers. */
  datatype Outcome = Outcome(success: bool, remaining: int, reset: int)

  datatype Window = Window(count: int, reset: int)

  /** A window that no longer counts: absent, or its end has been reached. */
  predicate Expired(entry: Option<Window>, now: int) {
    entry.None? || entry.value.reset <= now
  }

  /** One counted request: the window afterwards and the answer. */
  function Hit(entry: Option<Window>, limit: int, durationMs: int, now: int): (Window, Outcome) {
    if Expired(entry, now) then
      var reset := now + durationMs;
      (Window(1, reset), Outcome(true, Max(0, limit - 1), reset))
    else if entry.value.count < limit then
      var w := entry.value.(count := entry.value.count + 1);
      (w, Outcome(true, Max(0, limit - w.count), w.reset))
    else
      (entry.value, Outcome(false, 0, entry.value.reset))
  }

  /** The answer of `check`, which counts nothing. */
  function Peek(entry: Option<Window>, limit: int, durationMs: int, now: int): Outcome {
    if Expired(entry, now) then Outcome(true, Max(0, limit), now + durationMs)
    else if entry.value.count < limit then
      Outcome(true, Max(0, limit - entry.value.count), entry.value.reset)
    else Outcome(false, 0, entry.value.reset)
  }

  /** `check` succeeds exactly when a request at the same moment would, for a positive limit. */
  lemma PeekPredictsHit(entry: Option<Window>, limit: int, durationMs: int, now: int)
    ensures (Peek(entry, limit, durationMs, now).success <==> Hit(entry, limit, durationMs, now).1.success)
    ensures Peek(entry, limit, durationMs, now).reset == Hit(entry, limit, durationMs, now).1.reset
    ensures Hit(entry, limit, durationMs, now).1.success && limit >= 1 ==>
      Hit(entry, limit, durationMs, now).1.remaining == Peek(entry, limit, durationMs, now).remaining - 1
    ensures !Hit(entry, limit, durationMs, now).1.success ==>
      Hit(entry, limit, durationMs, now).1.remaining == Peek(entry, limit, durationMs, now).remaining == 0
    ensures Expired(entry, now) && limit <= 0 ==>
      Hit(entry, limit, durationMs, now).1.remaining == Peek(entry, limit, durationMs, now).remaining == 0
  {
  }

  /** The window after further requests at the given moments. */
  function HitAll(w: Window, limit: int, d: int, times: seq<int>): Window {
    if times == [] then w
    else Hit(Some(HitAll(w, limit, d, times[..|times| - 1])), limit, d, times[|times| - 1]).0
  }

  /** `remaining` is exact: of the requests that follow before `reset`, just that many are granted. */
  lemma {:induction false} RemainingIsExact(
      entry: Option<Window>, limit: int, d: int, now: int, times: seq<int>, next: int)
    requires limit >= 1 && (!Expired(entry, now) ==> 1 <= entry.value.count <= limit)
    requires var answer := Hit(entry, limit, d, now).1;
      next < answer.reset && forall i :: 0 <= i < |times| ==> times[i] < answer.reset
    ensures var (w, answer) := Hit(entry, limit, d, now);
      var later := HitAll(w, limit, d, times);
      later.reset == w.reset && w.reset == answer.reset
      && later.count == (if |times| <= answer.remaining then w.count + |times| else limit)
      && w.count + answer.remaining == limit
      && (Hit(Some(later), limit, d, next).1.success <==> |times| < answer.remaining)
  {
    if times != [] {
      RemainingIsExact(entry, limit, d, now, times[..|times| - 1], times[|times| - 1]);
    }
  }

  // ----- Runs: the clock readings of successive requests on one key -----

  function WindowAfter(limit: int, d: int, nows: seq<int>): Option<Window> {
    if nows == [] then None
    else
      var n := |nows| - 1;
      Some(Hit(WindowAfter(limit, d, nows[..n]), limit, d, nows[n]).0)
  }

  function OutcomeAt(limit: int, d: int, nows: seq<int>, i: nat): Outcome
    requires i < |nows|
  {
    Hit(WindowAfter(limit, d, nows[..i]), limit, d, nows[i]).1
  }

  ghost predicate Nondecreasing(nows: seq<int>) {
    forall i, j :: 0 <= i <= j < |nows| ==> nows[i] <= nows[j]
  }

  /** The most a window grants: the limit, but always the request that opens it. */
  function Quota(limit: int): (q: int)
    ensures q >= 1 && (limit >= 1 ==> q == limit)
  {
    Max(1, limit)
  }

  /** The latest clock reading so far: the clock may step back. */
  function Latest(nows: seq<int>): int
    requires nows != []
  {
    var n := |nows| - 1;
    if n == 0 then nows[0] else Max(Latest(nows[..n]), nows[n])
  }

  lemma LatestOfMore(nows: seq<int>, now: int)
    ensures Latest(nows + [now]) == if nows == [] then now else Max(Latest(nows), now)
  {
    assert (nows + [now])[..|nows|] == nows;
  }

  /** Which requests were granted in the window that ends at `reset`. */
  ghost function GrantedIn(limit: int, d: int, nows: seq<int>, reset: int): nat -> bool {
    (i: nat) => i < |nows| && OutcomeAt(limit, d, nows, i).success && OutcomeAt(limit, d, nows, i).reset == reset
  }

  /** Which requests were granted while the latest reading was in [from, to). */
  ghost function GrantedBetween(limit: int, d: int, nows: seq<int>, from: int, to: int): nat -> bool {
    (i: nat) => i < |nows| && OutcomeAt(limit, d, nows, i).success && from <= Latest(nows[..i + 1]) < to
  }

  /** Which requests were granted at clock readings of their own in [from, to). */
  ghost function GrantedAtReadings(limit: int, d: int, nows: seq<int>, from: int, to: int): nat -> bool {
    (i: nat) => i < |nows| && OutcomeAt(limit, d, nows, i).success && from <= nows[i] < to
  }

  /** How many requests were granted while the latest reading was in [from, to). */
  ghost function Grants(limit: int, d: int, nows: seq<int>, from: int, to: int): nat {
    Count(GrantedBetween(limit, d, nows, from, to), |nows|)
  }

  /** How many were granted at readings of their own in [from, to). */
  ghost function GrantsAtReadings(limit: int, d: int, nows: seq<int>, from: int, to: int): nat {
    Count(GrantedAtReadings(limit, d, nows, from, to), |nows|)
  }

  /** A prefix of a run answers like the run itself. */
  lemma PrefixAnswers(limit: int, d: int, nows: seq<int>, n: nat, i: nat)
    requires i < n <= |nows|
    ensures OutcomeAt(limit, d, nows[..n], i) == OutcomeAt(limit, d, nows, i)
  {
    assert nows[..n][..i] == nows[..i];
  }

  lemma HitLast(limit: int, d: int, hits: seq<int>, now: int)
    ensures var (w, answer) := Hit(WindowAfter(limit, d, hits), limit, d, now);
      WindowAfter(limit, d, hits + [now]) == Some(w) && OutcomeAt(limit, d, hits + [now], |hits|) == answer
  {
    assert (hits + [now])[..|hits|] == hits;
  }

  /** The window in force after each request is the one the request was answered from. */
  lemma WindowInForce(limit: int, d: int, nows: seq<int>, i: nat)
    requires d > 0 && i < |nows|
    ensures var (w, answer) := (WindowAfter(limit, d, nows[..i + 1]), OutcomeAt(limit, d, nows, i));
      w.Some? && w.value.reset == answer.reset && nows[i] < answer.reset
  {
    assert nows[..i + 1][..i] == nows[..i];
  }

  /** It ends after the latest reading, by at most one duration. */
  lemma ResetInForce(limit: int, d: int, nows: seq<int>, i: nat)
    requires d > 0 && i < |nows|
    ensures Latest(nows[..i + 1]) < OutcomeAt(limit, d, nows, i).reset <= Latest(nows[..i + 1]) + d
  {
    assert nows[..i + 1][..i] == nows[..i];
    if i > 0 {
      WindowInForce(limit, d, nows, i - 1);
      ResetInForce(limit, d, nows, i - 1);
    }
  }

  /** Requests that all read less than a duration after the first are granted just up to the quota. */
  lemma {:induction false} OneWindow(limit: int, d: int, nows: seq<int>, i: nat)
    requires d > 0 && i < |nows| && forall j :: 0 <= j < |nows| ==> nows[j] < nows[0] + d
    ensures OutcomeAt(limit, d, nows, i).success <==> i < Quota(limit)
    ensures WindowAfter(limit, d, nows[..i + 1])
      == Some(Window(if i < Quota(limit) then i + 1 else Quota(limit), nows[0] + d))
  {
    assert nows[..i + 1][..i] == nows[..i];
    if i > 0 { OneWindow(limit, d, nows, i - 1); }
  }

  /** Two requests share a window or fall into windows at least one duration apart. */
  lemma {:induction false} WindowsAreDisjoint(limit: int, d: int, nows: seq<int>, i: nat, j: nat)
    requires d > 0 && i <= j < |nows|
    ensures var (r, s) := (OutcomeAt(limit, d, nows, i).reset, OutcomeAt(limit, d, nows, j).reset);
      r == s || r + d <= s
    decreases j
  {
    if i < j {
      WindowsAreDisjoint(limit, d, nows, i, j - 1);
      WindowInForce(limit, d, nows, j - 1);
      WindowInForce(limit, d, nows, j);
    }
  }

  /** The open window's counter is the number of requests granted in it, and at most the quota. */
  lemma {:induction false} CounterCountsGrants(limit: int, d: int, nows: seq<int>)
    requires d > 0 && nows != []
    ensures var w := WindowAfter(limit, d, nows);
      w.Some? && 1 <= w.value.count <= Quota(limit)
      && w.value.count == Count(GrantedIn(limit, d, nows, w.value.reset), |nows|)
  {
    var n := |nows| - 1;
    var before := nows[..n];
    var w := WindowAfter(limit, d, nows).value;
    assert nows[..n + 1] == nows;
    WindowInForce(limit, d, nows, n);
    var now := GrantedIn(limit, d, nows, w.reset);
    var was := GrantedIn(limit, d, before, w.reset);
    forall i: nat | i < n ensures now(i) == was(i) {
      PrefixAnswers(limit, d, nows, n, i);
    }
    CountSame(now, was, n);
    if n > 0 {
      CounterCountsGrants(limit, d, before);
      WindowInForce(limit, d, nows, n - 1);
      if Expired(WindowAfter(limit, d, before), nows[n]) {
        forall i: nat | i < n ensures !was(i) {
          PrefixAnswers(limit, d, nows, n, i);
          WindowsAreDisjoint(limit, d, nows, i, n - 1);
        }
        CountFrom(was, n, n);
      }
    }
  }

  lemma {:induction false} AtMostQuotaPerWindow(limit: int, d: int, nows: seq<int>, reset: int)
    requires d > 0
    ensures Count(GrantedIn(limit, d, nows, reset), |nows|) <= Quota(limit)
  {
    if nows != [] {
      var n := |nows| - 1;
      var now := GrantedIn(limit, d, nows, reset);
      assert nows[..n + 1] == nows;
      WindowInForce(limit, d, nows, n);
      if OutcomeAt(limit, d, nows, n).reset == reset {
        CounterCountsGrants(limit, d, nows);
      } else {
        var was := GrantedIn(limit, d, nows[..n], reset);
        forall i: nat | i < n ensures now(i) == was(i) {
          PrefixAnswers(limit, d, nows, n, i);
        }
        CountSame(now, was, n);
        AtMostQuotaPerWindow(limit, d, nows[..n], reset);
      }
    }
  }

  /**
   No window ever grants more than the limit, under any clock, if and only if the limit is positive:
   the request that opens a window is granted whatever the limit.
   */
  lemma AtMostLimitPerWindow(limit: int, d: int, nows: seq<int>)
    requires d > 0 && nows != []
    ensures (forall reset: int :: Count(GrantedIn(limit, d, nows, reset), |nows|) <= limit) <==> limit >= 1
  {
    forall reset: int ensures Count(GrantedIn(limit, d, nows, reset), |nows|) <= Quota(limit) {
      AtMostQuotaPerWindow(limit, d, nows, reset);
    }
    CounterCountsGrants(limit, d, nows);
    assert Count(GrantedIn(limit, d, nows, WindowAfter(limit, d, nows).value.reset), |nows|) >= 1;
  }

  /** Without a duration there is no limit: under a clock that moves on every request is granted. */
  lemma NoDurationNoLimit(limit: int, d: int, nows: seq<int>, i: nat)
    requires d <= 0 && Nondecreasing(nows) && i < |nows|
    ensures OutcomeAt(limit, d, nows, i).success
    ensures WindowAfter(limit, d, nows[..i + 1]) == Some(Window(1, nows[i] + d))
  {
    assert nows[..i + 1][..i] == nows[..i];
    if i > 0 { NoDurationNoLimit(limit, d, nows, i - 1); }
  }

  /** A request is refused only when the open window has already granted its whole quota. */
  lemma RefusalMeansExhausted(limit: int, d: int, nows: seq<int>, i: nat)
    requires d > 0 && i < |nows|
    ensures !OutcomeAt(limit, d, nows, i).success <==>
      (i > 0 && nows[i] < OutcomeAt(limit, d, nows, i - 1).reset
       && Count(GrantedIn(limit, d, nows[..i], OutcomeAt(limit, d, nows, i - 1).reset), i) == Quota(limit))
  {
    if i > 0 {
      CounterCountsGrants(limit, d, nows[..i]);
      WindowInForce(limit, d, nows, i - 1);
    }
  }

  /** Every window was opened by a granted request exactly one duration before it ends. */
  lemma {:induction false} Opener(limit: int, d: int, nows: seq<int>, i: nat) returns (o: nat)
    requires d > 0 && i < |nows|
    ensures o <= i && GrantedIn(limit, d, nows, OutcomeAt(limit, d, nows, i).reset)(o)
    ensures nows[o] == Latest(nows[..o + 1]) && nows[o] + d == OutcomeAt(limit, d, nows, i).reset
    decreases i
  {
    if Expired(WindowAfter(limit, d, nows[..i]), nows[i]) {
      o := i;
      assert nows[..i + 1][..i] == nows[..i];
      if i > 0 {
        WindowInForce(limit, d, nows, i - 1);
        ResetInForce(limit, d, nows, i - 1);
      }
    } else {
      WindowInForce(limit, d, nows, i - 1);
      o := Opener(limit, d, nows, i - 1);
    }
  }

  lemma ApartOrSame(limit: int, d: int, nows: seq<int>, i: nat, j: nat)
    requires d > 0 && i < |nows| && j < |nows|
    ensures var (r, s) := (OutcomeAt(limit, d, nows, i).reset, OutcomeAt(limit, d, nows, j).reset);
      r == s || r + d <= s || s + d <= r
  {
    WindowsAreDisjoint(limit, d, nows, if i <= j then i else j, if i <= j then j else i);
  }

  /**
   While the latest clock reading is in any half-open interval as long as the duration, at most twice
   the quota less one is granted, even if the clock steps back: the interval meets at most two
   windows, and the request that opened the earlier one lies before it.
   */
  lemma IntervalBound(limit: int, d: int, nows: seq<int>, from: int)
    requires d > 0
    ensures Grants(limit, d, nows, from, from + d) <= 2 * Quota(limit) - 1
  {
    var n := |nows|;
    var inside := GrantedBetween(limit, d, nows, from, from + d);
    if i: nat :| i < n && inside(i) {
      var all := GrantedIn(limit, d, nows, OutcomeAt(limit, d, nows, i).reset);
      if k: nat :| k < n && inside(k) && !all(k) {
        if OutcomeAt(limit, d, nows, i).reset < OutcomeAt(limit, d, nows, k).reset {
          TwoWindows(limit, d, nows, from, i, k);
        } else {
          TwoWindows(limit, d, nows, from, k, i);
        }
      } else {
        CountGrows(inside, all, n);
        AtMostQuotaPerWindow(limit, d, nows, OutcomeAt(limit, d, nows, i).reset);
      }
    } else {
      CountFrom(inside, n, n);
    }
  }

  /** Windows met at latest readings in one interval are two at most: any third ends with one of them. */
  lemma OneOfTwo(limit: int, d: int, nows: seq<int>, from: int, i: nat, j: nat, k: nat)
    requires d > 0 && i < |nows| && j < |nows| && k < |nows|
    requires from <= Latest(nows[..i + 1]) < from + d && from <= Latest(nows[..j + 1]) < from + d
    requires from <= Latest(nows[..k + 1]) < from + d
    requires OutcomeAt(limit, d, nows, i).reset < OutcomeAt(limit, d, nows, j).reset
    ensures var reset := OutcomeAt(limit, d, nows, k).reset;
      reset == OutcomeAt(limit, d, nows, i).reset || reset == OutcomeAt(limit, d, nows, j).reset
    ensures OutcomeAt(limit, d, nows, i).reset < from + d
  {
    ResetInForce(limit, d, nows, i);
    ResetInForce(limit, d, nows, j);
    ResetInForce(limit, d, nows, k);
    ApartOrSame(limit, d, nows, i, j);
    ApartOrSame(limit, d, nows, i, k);
    ApartOrSame(limit, d, nows, j, k);
  }

  lemma GrantOfTwo(limit: int, d: int, nows: seq<int>, from: int, i: nat, j: nat, k: nat)
    requires d > 0 && i < |nows| && j < |nows| && k < |nows|
    requires from <= Latest(nows[..i + 1]) < from + d && from <= Latest(nows[..j + 1]) < from + d
    requires OutcomeAt(limit, d, nows, i).reset < OutcomeAt(limit, d, nows, j).reset
    requires GrantedBetween(limit, d, nows, from, from + d)(k)
    ensures GrantedIn(limit, d, nows, OutcomeAt(limit, d, nows, i).reset)(k)
         || GrantedIn(limit, d, nows, OutcomeAt(limit, d, nows, j).reset)(k)
  {
    OneOfTwo(limit, d, nows, from, i, j, k);
  }

  /** The request that opened the earlier of the two windows lies before the interval. */
  lemma OpenerOutside(limit: int, d: int, nows: seq<int>, from: int, i: nat, j: nat) returns (o: nat)
    requires d > 0 && i < |nows| && j < |nows|
    requires from <= Latest(nows[..i + 1]) < from + d && from <= Latest(nows[..j + 1]) < from + d
    requires OutcomeAt(limit, d, nows, i).reset < OutcomeAt(limit, d, nows, j).reset
    ensures o < |nows| && GrantedIn(limit, d, nows, OutcomeAt(limit, d, nows, i).reset)(o)
    ensures !GrantedBetween(limit, d, nows, from, from + d)(o)
  {
    o := Opener(limit, d, nows, i);
    OneOfTwo(limit, d, nows, from, i, j, i);
  }

  /** Grants from two windows, not all of the first. */
  lemma CountOfTwo(limit: int, d: int, nows: seq<int>, inside: nat -> bool, r: int, s: int, spare: nat)
    requires d > 0 && spare < |nows| && GrantedIn(limit, d, nows, r)(spare) && !inside(spare)
    requires forall k: nat | k < |nows| && inside(k) ::
      GrantedIn(limit, d, nows, r)(k) || GrantedIn(limit, d, nows, s)(k)
    ensures Count(inside, |nows|) <= 2 * Quota(limit) - 1
  {
    var early, late := GrantedIn(limit, d, nows, r), GrantedIn(limit, d, nows, s);
    var kept := (k: nat) => early(k) && inside(k);
    CountCoverSpare(inside, early, late, kept, |nows|, spare);
    AtMostQuotaPerWindow(limit, d, nows, r);
    AtMostQuotaPerWindow(limit, d, nows, s);
  }

  lemma TwoWindows(limit: int, d: int, nows: seq<int>, from: int, i: nat, j: nat)
    requires d > 0 && i < |nows| && j < |nows|
    requires from <= Latest(nows[..i + 1]) < from + d && from <= Latest(nows[..j + 1]) < from + d
    requires OutcomeAt(limit, d, nows, i).reset < OutcomeAt(limit, d, nows, j).reset
    ensures Grants(limit, d, nows, from, from + d) <= 2 * Quota(limit) - 1
  {
    var inside := GrantedBetween(limit, d, nows, from, from + d);
    forall k: nat | k < |nows| && inside(k)
      ensures GrantedIn(limit, d, nows, OutcomeAt(limit, d, nows, i).reset)(k)
           || GrantedIn(limit, d, nows, OutcomeAt(limit, d, nows, j).reset)(k)
    {
      GrantOfTwo(limit, d, nows, from, i, j, k);
    }
    var o := OpenerOutside(limit, d, nows, from, i, j);
    CountOfTwo(limit, d, nows, inside, OutcomeAt(limit, d, nows, i).reset, OutcomeAt(limit, d, nows, j).reset, o);
  }

  lemma LatestIsLast(nows: seq<int>, n: nat)
    requires Nondecreasing(nows) && n < |nows|
    ensures Latest(nows[..n + 1]) == nows[n]
  {
    assert nows[..n + 1][..n] == nows[..n];
    if n > 0 { LatestIsLast(nows, n - 1); }
  }

  ghost predicate ReadingsBounded(limit: int, d: int, nows: seq<int>, from: int) {
    GrantsAtReadings(limit, d, nows, from, from + d) <= 2 * Quota(limit) - 1
  }

  /** Under a clock that moves on, the interval may be read off the requests' own readings. */
  lemma IntervalBoundOnReadings(limit: int, d: int, nows: seq<int>, from: int)
    requires d > 0 && Nondecreasing(nows)
    ensures ReadingsBounded(limit, d, nows, from)
  {
    var (p, q) := (GrantedAtReadings(limit, d, nows, from, from + d), GrantedBetween(limit, d, nows, from, from + d));
    forall i: nat | i < |nows| ensures p(i) == q(i) {
      LatestIsLast(nows, i);
    }
    CountSame(p, q, |nows|);
    IntervalBound(limit, d, nows, from);
  }

  lemma SameReadingGrants(limit: int, d: int, nows: seq<int>, now: int, from: int, to: int, i: nat)
    requires i < |nows|
    ensures GrantedAtReadings(limit, d, nows + [now], from, to)(i) == GrantedAtReadings(limit, d, nows, from, to)(i)
  {
    assert (nows + [now])[..|nows|] == nows;
    PrefixAnswers(limit, d, nows + [now], |nows|, i);
  }

  /** One more request: the window afterwards, and the grants so far at readings in [from, to). */
  lemma OneMoreReading(limit: int, d: int, nows: seq<int>, now: int, from: int, to: int)
    ensures var (w, answer) := Hit(WindowAfter(limit, d, nows), limit, d, now);
      WindowAfter(limit, d, nows + [now]) == Some(w)
      && GrantsAtReadings(limit, d, nows + [now], from, to)
         == GrantsAtReadings(limit, d, nows, from, to) + if answer.success && from <= now < to then 1 else 0
  {
    var (p, q) := (GrantedAtReadings(limit, d, nows + [now], from, to), GrantedAtReadings(limit, d, nows, from, to));
    forall i: nat | i < |nows| ensures p(i) == q(i) {
      SameReadingGrants(limit, d, nows, now, from, to, i);
    }
    CountOneMore(p, q, |nows|);
    HitLast(limit, d, nows, now);
  }

  /** A tick opens a window, and in it a request that reads 0 is granted. */
  lemma TickAndBack(limit: int, d: nat, nows: seq<int>, t: int)
    requires limit >= 2 && d > 0 && t >= d
    requires WindowAfter(limit, d, nows).Some? && WindowAfter(limit, d, nows).value.reset == t
    ensures WindowAfter(limit, d, nows + [t] + [0]) == Some(Window(2, t + d))
    ensures GrantsAtReadings(limit, d, nows + [t] + [0], 0, d) == GrantsAtReadings(limit, d, nows, 0, d) + 1
  {
    var mid := nows + [t];
    OneMoreReading(limit, d, nows, t, 0, d);
    OneMoreReading(limit, d, mid, 0, 0, d);
  }

  lemma FirstReading(limit: int, d: nat)
    requires d > 0
    ensures WindowAfter(limit, d, [0]) == Some(Window(1, d)) && GrantsAtReadings(limit, d, [0], 0, d) == 1
  {
    assert [] + [0] == [0];
    OneMoreReading(limit, d, [], 0, 0, d);
  }

  /** A clock that falls back to 0 after every tick, 0, d, 0, 2 * d, 0 and so on, has any number of early grants. */
  lemma {:induction false} ZigzagGrants(limit: int, d: nat, k: nat) returns (nows: seq<int>, reset: int)
    requires limit >= 2 && d > 0
    ensures WindowAfter(limit, d, nows).Some? && WindowAfter(limit, d, nows).value.reset == reset >= d
    ensures GrantsAtReadings(limit, d, nows, 0, d) == k + 1
  {
    if k == 0 {
      FirstReading(limit, d);
      nows, reset := [0], d;
    } else {
      var before, t := ZigzagGrants(limit, d, k - 1);
      TickAndBack(limit, d, before, t);
      nows, reset := before + [t] + [0], t + d;
    }
  }

  /** With a quota of one only openers are granted, at readings that are the latest. */
  lemma OnlyOpeners(limit: int, d: int, nows: seq<int>, i: nat)
    requires d > 0 && limit <= 1 && i < |nows|
    ensures OutcomeAt(limit, d, nows, i).success ==> nows[i] == Latest(nows[..i + 1])
  {
    assert nows[..i + 1][..i] == nows[..i];
    if i > 0 {
      WindowInForce(limit, d, nows, i - 1);
      ResetInForce(limit, d, nows, i - 1);
      CounterCountsGrants(limit, d, nows[..i]);
    }
  }

  /**
   When the clock steps back, the requests' own readings are a bad measure: the bound holds on them
   for every clock if and only if the limit is at most one.
   */
  lemma ReadingsBoundedIff(limit: int, d: int)
    requires d > 0
    ensures (forall nows: seq<int>, from: int :: ReadingsBounded(limit, d, nows, from)) <==> limit <= 1
  {
    if limit <= 1 {
      forall nows: seq<int>, from: int ensures ReadingsBounded(limit, d, nows, from) {
        forall i: nat | i < |nows| && OutcomeAt(limit, d, nows, i).success ensures nows[i] == Latest(nows[..i + 1]) {
          OnlyOpeners(limit, d, nows, i);
        }
        CountGrows(GrantedAtReadings(limit, d, nows, from, from + d),
                   GrantedBetween(limit, d, nows, from, from + d), |nows|);
        IntervalBound(limit, d, nows, from);
      }
    } else {
      var nows, _ := ZigzagGrants(limit, d, 2 * limit);
      assert !ReadingsBounded(limit, d, nows, 0);
    }
  }

  /** One request opens a window, the rest of the limit arrives at its last millisecond, a full limit right after. */
  function Burst(limit: nat, d: nat): seq<int> {
    seq(2 * limit, i => if i == 0 then 0 else if i < limit then d - 1 else d)
  }

  lemma {:induction false} BurstWindow(limit: nat, d: nat, i: nat)
    requires limit >= 1 && d >= 2 && i <= 2 * limit
    ensures WindowAfter(limit, d, Burst(limit, d)[..i]) ==
      if i == 0 then None
      else if i <= limit then Some(Window(i, d))
      else Some(Window(i - limit, 2 * d))
  {
    if i > 0 {
      BurstWindow(limit, d, i - 1);
      assert Burst(limit, d)[..i][..i - 1] == Burst(limit, d)[..i - 1];
    }
  }

  lemma BurstGranted(limit: nat, d: nat, i: nat)
    requires limit >= 1 && d >= 2 && i < 2 * limit
    ensures OutcomeAt(limit, d, Burst(limit, d), i).success
  {
    BurstWindow(limit, d, i);
  }

  /** The bound is reached: for every limit and every duration of at least two milliseconds. */
  lemma IntervalBoundIsTight(limit: nat, d: nat)
    requires limit >= 1 && d >= 2
    ensures Nondecreasing(Burst(limit, d))
    ensures Grants(limit, d, Burst(limit, d), d - 1, d - 1 + d) == 2 * limit - 1
  {
    var nows := Burst(limit, d);
    var inside := GrantedBetween(limit, d, nows, d - 1, d - 1 + d);
    forall i: nat | i < |nows| ensures inside(i) <==> 1 <= i {
      BurstGranted(limit, d, i);
      LatestIsLast(nows, i);
    }
    CountFrom(inside, |nows|, 1);
  }
}
