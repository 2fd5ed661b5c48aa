/** The calls a rate-limit store serves, and runs of them made by concurrent verifications. */
module RateLimitRequests {
  import opened Prelude
  import opened FixedWindow
  import opened TokenBucket

  datatype Request =
    | IncrementAndCheck(namespace: string, identifier: string, limit: int, durationMs: int)
    | Check(namespace: string, identifier: string, limit: int, durationMs: int)
    | ConsumeTokenBucket(namespace: string, identifier: string, config: Config, cost: real)
    | Reset(namespace: string, identifier: string)

  /** A request together with the clock reading it is served at. */
  datatype Timed = Timed(request: Request, now: int)

  datatype Reply = Answered(outcome: Outcome) | Cleared | Failed

  /** Requests the limiter's arithmetic is defined for. */
  predicate Defined(r: Request) {
    r.ConsumeTokenBucket? ==> Usable(r.config)
  }

  ghost predicate AllDefined(run: seq<Timed>) {
    forall i :: 0 <= i < |run| ==> Defined(run[i].request)
  }

  ghost predicate ClockMovesOn(run: seq<Timed>) {
    forall i, j :: 0 <= i <= j < |run| ==> run[i].now <= run[j].now
  }
}
