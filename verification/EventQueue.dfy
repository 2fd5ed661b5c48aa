/**
 The buffered ClickHouse writer as a protocol: the code between two awaits is one atomic step,
 and callers, the flush timer and the outcomes of inserts interleave freely between steps.
 */
module EventQueue {
  import opened Prelude

  /** A tracked event; `serialisable` says whether JSON.stringify accepts its payload. */
  datatype Event = Event(name: string, payload: string, ts: int, serialisable: bool)

  /**
   The writer's fields, the batch whose insert is awaited, and history variables: what was tracked,
   what an insert acknowledged, what was taken from the queue and dropped by an exception, what the
   server has stored, and what it has stored without the writer hearing of it.
   */
  datatype State = State(
    queue: seq<Event>, isFlushing: bool, inFlight: Option<seq<Event>>, lastFailed: bool,
    tracked: seq<Event>, acknowledged: seq<Event>, dropped: seq<Event>, server: seq<Event>, unheard: seq<Event>)

  const INITIAL := State([], false, None, false, [], [], [], [], [])

  predicate Serialisable(events: seq<Event>) {
    forall i :: 0 <= i < |events| ==> events[i].serialisable
  }

  function BatchLength(s: State, batchSize: nat): nat {
    if |s.queue| < batchSize then |s.queue| else batchSize
  }

  /** The head of the drain loop: stop when empty, else splice a batch and start its insert. */
  function Drain(s: State, batchSize: nat): State {
    if s.queue == [] then s.(isFlushing := false)
    else
      var n := BatchLength(s, batchSize);
      var (batch, rest) := (s.queue[..n], s.queue[n..]);
      if Serialisable(batch) then s.(queue := rest, inFlight := Some(batch))
      else s.(queue := rest, isFlushing := false, lastFailed := true, dropped := s.dropped + batch)
  }

  function StartFlush(s: State, batchSize: nat): State {
    if s.isFlushing || s.queue == [] then s else Drain(s.(isFlushing := true), batchSize)
  }

  /** How an insert ends: stored and answered, not stored, or stored though the answer is an error or a timeout. */
  datatype Answer = Acknowledged | Rejected | Unheard

  datatype Step =
    | Track(event: Event)     // a caller
    | Flush                   // the timer, flushAll or close
    | Settle(answer: Answer)  // the awaited insert resolves or fails

  function Next(s: State, step: Step, batchSize: nat): State {
    match step
    case Track(e) =>
      var pushed := s.(queue := s.queue + [e], tracked := s.tracked + [e]);
      if |pushed.queue| >= batchSize then StartFlush(pushed, batchSize) else pushed
    case Flush => StartFlush(s, batchSize)
    case Settle(answer) =>
      if s.inFlight.None? then s  // no insert is awaited
      else
        var batch := s.inFlight.value;
        if answer.Acknowledged? then
          Drain(s.(acknowledged := s.acknowledged + batch, server := s.server + batch,
                   inFlight := None, lastFailed := false), batchSize)
        else
          var stored := if answer.Unheard? then batch else [];
          s.(queue := batch + s.queue, inFlight := None, isFlushing := false, lastFailed := true,
             server := s.server + stored, unheard := s.unheard + stored)
  }

  class ClickHouseAnalytics {
    const batchSize: nat
    var queue: seq<Event>
    var isFlushing: bool
    var inFlight: Option<seq<Event>>
    ghost var lastFailed: bool
    ghost var tracked: seq<Event>
    ghost var acknowledged: seq<Event>
    ghost var dropped: seq<Event>
    ghost var server: seq<Event>
    ghost var unheard: seq<Event>

    ghost function View(): State
      reads this
    {
      State(queue, isFlushing, inFlight, lastFailed, tracked, acknowledged, dropped, server, unheard)
    }

    constructor (batchSizeOption: Option<int>)
      ensures View() == INITIAL
      ensures batchSize == Max(1, Or(batchSizeOption, 50))
    {
      batchSize := Max(1, Or(batchSizeOption, 50));
      queue, isFlushing, inFlight := [], false, None;
      lastFailed, tracked, acknowledged, dropped, server, unheard := false, [], [], [], [], [];
    }

    method TrackEvent(e: Event)
      modifies this
      ensures View() == Next(old(View()), Track(e), batchSize)
    {
      queue := queue + [e];
      tracked := tracked + [e];
      if |queue| >= batchSize {
        RunFlush();
      }
    }

    /** From the guard to the first await. */
    method RunFlush()
      modifies this
      ensures View() == StartFlush(old(View()), batchSize)
    {
      if isFlushing { return; }
      if |queue| == 0 { return; }
      isFlushing := true;
      TakeBatch();
    }

    /** From the loop head to the next await, or out of the loop. */
    method TakeBatch()
      modifies this
      ensures View() == Drain(old(View()), batchSize)
    {
      if |queue| > 0 {
        var n := if |queue| < batchSize then |queue| else batchSize;
        var batch := queue[..n];
        queue := queue[n..];
        if !Serialisable(batch) {
          // JSON.stringify throws outside the inner try: only `finally` runs.
          isFlushing := false;
          lastFailed, dropped := true, dropped + batch;
          return;
        }
        inFlight := Some(batch);
      } else {
        isFlushing := false;
      }
    }

    /** The awaited insert comes back. */
    method InsertSettled(ok: bool, ghost stored: bool)
      requires inFlight.Some? && (ok ==> stored)
      modifies this
      ensures var answer := if ok then Acknowledged else if stored then Unheard else Rejected;
        View() == Next(old(View()), Settle(answer), batchSize)
    {
      var batch := inFlight.value;
      inFlight := None;
      if stored { server := server + batch; }
      if ok {
        acknowledged, lastFailed := acknowledged + batch, false;
        TakeBatch();
      } else {
        queue := batch + queue;
        isFlushing := false;
        lastFailed := true;
        if stored { unheard := unheard + batch; }
      }
    }
  }

  // ----- Every interleaving -----

  function Run(steps: seq<Step>, batchSize: nat): State {
    if steps == [] then INITIAL
    else Next(Run(steps[..|steps| - 1], batchSize), steps[|steps| - 1], batchSize)
  }

  function Outstanding(s: State): seq<Event> {
    Or(s.inFlight, [])
  }

  /** Nothing lost, duplicated or reordered. */
  predicate Conserved(s: State) {
    s.acknowledged + Outstanding(s) + s.queue == s.tracked
  }

  /** What every step keeps. */
  predicate Invariant(s: State, batchSize: nat) {
    // one batch of legal size is in flight exactly while a flush runs
    && (s.inFlight.Some? <==> s.isFlushing)
    && (s.inFlight.Some? ==> 1 <= |s.inFlight.value| <= batchSize)
    // only serialisable events leave the process
    && Serialisable(s.acknowledged) && Serialisable(Outstanding(s))
    // the books balance, and exactly so unless a batch was dropped
    && |s.acknowledged| + |Outstanding(s)| + |s.queue| + |s.dropped| == |s.tracked|
    && (s.dropped == [] ==> Conserved(s))
    && (Serialisable(s.tracked) ==> s.dropped == [])
    // the backlog is short unless a flush runs or the last one failed
    && (!s.isFlushing && !s.lastFailed ==> |s.queue| < batchSize)
  }

  /** Between the steps of a flush: the invariant with no batch in flight yet. */
  predicate AtLoopHead(s: State) {
    && s.isFlushing && s.inFlight.None?
    && Serialisable(s.acknowledged)
    && |s.acknowledged| + |s.queue| + |s.dropped| == |s.tracked|
    && (s.dropped == [] ==> s.acknowledged + s.queue == s.tracked)
    && (Serialisable(s.tracked) ==> s.dropped == [])
  }

  lemma DrainKeeps(s: State, batchSize: nat)
    requires batchSize >= 1 && AtLoopHead(s) && (s.queue == [] ==> !s.lastFailed)
    ensures Invariant(Drain(s, batchSize), batchSize)
  {
    if s.queue != [] {
      var n := BatchLength(s, batchSize);
      var (batch, rest) := (s.queue[..n], s.queue[n..]);
      assert s.queue == batch + rest;
      if s.dropped == [] {
        assert s.acknowledged + batch + rest == s.tracked;
        if Serialisable(s.tracked) { SerialisableParts(s.acknowledged, batch, rest); }
      }
    }
  }

  lemma SerialisableParts(a: seq<Event>, b: seq<Event>, c: seq<Event>)
    ensures Serialisable(a + b + c) <==> Serialisable(a) && Serialisable(b) && Serialisable(c)
  {
    var all := a + b + c;
    if Serialisable(all) {
      forall i | 0 <= i < |a| ensures a[i].serialisable { assert all[i] == a[i]; }
      forall i | 0 <= i < |b| ensures b[i].serialisable { assert all[|a| + i] == b[i]; }
      forall i | 0 <= i < |c| ensures c[i].serialisable { assert all[|a| + |b| + i] == c[i]; }
    }
  }

  lemma PushKeeps(s: State, e: Event, batchSize: nat)
    requires Invariant(s, batchSize)
    ensures var pushed := s.(queue := s.queue + [e], tracked := s.tracked + [e]);
      Invariant(pushed.(lastFailed := true), batchSize)
      && (s.isFlushing ==> Invariant(pushed, batchSize))
      && (!s.isFlushing ==> AtLoopHead(pushed.(isFlushing := true)))
  {
    var sent := s.acknowledged + Outstanding(s);
    assert sent + (s.queue + [e]) == sent + s.queue + [e];
    SerialisableParts(s.tracked, [e], []);
    assert s.tracked + [e] + [] == s.tracked + [e];
    assert Outstanding(s) == [] ==> sent == s.acknowledged;
  }

  lemma SettleKeeps(s: State, answer: Answer, batchSize: nat)
    requires batchSize >= 1 && Invariant(s, batchSize)
    ensures Invariant(Next(s, Settle(answer), batchSize), batchSize)
  {
    if s.inFlight.Some? {
      var batch := s.inFlight.value;
      assert s.acknowledged + batch + s.queue == s.acknowledged + (batch + s.queue);
      if answer.Acknowledged? {
        SerialisableParts(s.acknowledged, batch, []);
        assert s.acknowledged + batch + [] == s.acknowledged + batch;
        DrainKeeps(s.(acknowledged := s.acknowledged + batch, server := s.server + batch,
                      inFlight := None, lastFailed := false), batchSize);
      } else {
        assert s.acknowledged + [] == s.acknowledged;
      }
    }
  }

  lemma StepKeeps(s: State, step: Step, batchSize: nat)
    requires batchSize >= 1 && Invariant(s, batchSize)
    ensures Invariant(Next(s, step, batchSize), batchSize)
  {
    assert s.inFlight.None? ==> s.acknowledged + Outstanding(s) == s.acknowledged;
    match step
    case Settle(answer) => SettleKeeps(s, answer, batchSize);
    case Flush =>
      if !s.isFlushing && s.queue != [] { DrainKeeps(s.(isFlushing := true), batchSize); }
    case Track(e) =>
      PushKeeps(s, e, batchSize);
      var pushed := s.(queue := s.queue + [e], tracked := s.tracked + [e]);
      if |pushed.queue| >= batchSize && !s.isFlushing {
        DrainKeeps(pushed.(isFlushing := true), batchSize);
      }
  }

  lemma {:induction false} RunKeeps(steps: seq<Step>, batchSize: nat)
    requires batchSize >= 1
    ensures Invariant(Run(steps, batchSize), batchSize)
  {
    if steps != [] {
      RunKeeps(steps[..|steps| - 1], batchSize);
      StepKeeps(Run(steps[..|steps| - 1], batchSize), steps[|steps| - 1], batchSize);
    }
  }

  /** In every reachable state, conservation holds exactly if no batch was dropped by an exception. */
  lemma ConservedUnlessDropped(steps: seq<Step>, batchSize: nat)
    requires batchSize >= 1
    ensures Conserved(Run(steps, batchSize)) <==> Run(steps, batchSize).dropped == []
    ensures Serialisable(Run(steps, batchSize).tracked) ==> Conserved(Run(steps, batchSize))
  {
    RunKeeps(steps, batchSize);
    var s := Run(steps, batchSize);
    if Conserved(s) {
      assert |s.acknowledged + Outstanding(s) + s.queue| == |s.tracked|;
    }
  }

  /** Once everything has been flushed, all of it has arrived if and only if every payload was serialisable. */
  lemma AllArrivedIffSerialisable(steps: seq<Step>, batchSize: nat)
    requires batchSize >= 1
    requires var s := Run(steps, batchSize); !s.isFlushing && s.queue == []
    ensures var s := Run(steps, batchSize); s.acknowledged == s.tracked <==> Serialisable(s.tracked)
  {
    RunKeeps(steps, batchSize);
    ConservedUnlessDropped(steps, batchSize);
    var s := Run(steps, batchSize);
    assert s.acknowledged + [] + [] == s.acknowledged;
  }

  /** What the server holds is what it acknowledged and what went unheard; in order if nothing did. */
  predicate Delivered(s: State) {
    multiset(s.server) == multiset(s.acknowledged) + multiset(s.unheard)
    && (s.unheard == [] ==> s.server == s.acknowledged)
  }

  lemma DrainDelivers(s: State, batchSize: nat)
    requires Delivered(s)
    ensures Delivered(Drain(s, batchSize))
  {
  }

  lemma BatchDelivered(s: State, batch: seq<Event>, answer: Answer)
    requires Delivered(s)
    ensures answer.Acknowledged? ==>
      Delivered(s.(acknowledged := s.acknowledged + batch, server := s.server + batch))
    ensures answer.Unheard? ==> Delivered(s.(server := s.server + batch, unheard := s.unheard + batch))
  {
    if answer.Unheard? && s.unheard + batch == [] { assert batch == []; }
  }

  lemma SettleDelivers(s: State, answer: Answer, batchSize: nat)
    requires Delivered(s) && s.inFlight.Some?
    ensures Delivered(Next(s, Settle(answer), batchSize))
  {
    var batch := s.inFlight.value;
    BatchDelivered(s, batch, answer);
    match answer
    case Acknowledged =>
      DrainDelivers(s.(acknowledged := s.acknowledged + batch, server := s.server + batch,
                       inFlight := None, lastFailed := false), batchSize);
    case Rejected => assert s.server + [] == s.server && s.unheard + [] == s.unheard;
    case Unheard =>
  }

  lemma StepDelivers(s: State, step: Step, batchSize: nat)
    requires Delivered(s)
    ensures Delivered(Next(s, step, batchSize))
  {
    match step
    case Settle(answer) => if s.inFlight.Some? { SettleDelivers(s, answer, batchSize); }
    case Flush => DrainDelivers(s.(isFlushing := true), batchSize);
    case Track(e) =>
      var pushed := s.(queue := s.queue + [e], tracked := s.tracked + [e]);
      DrainDelivers(pushed.(isFlushing := true), batchSize);
  }

  lemma {:induction false} RunDelivers(steps: seq<Step>, batchSize: nat)
    ensures Delivered(Run(steps, batchSize))
  {
    if steps != [] {
      RunDelivers(steps[..|steps| - 1], batchSize);
      StepDelivers(Run(steps[..|steps| - 1], batchSize), steps[|steps| - 1], batchSize);
    }
  }

  /**
   Delivery is at least once: in every reachable state the server holds every acknowledged event, and
   once serialisable events have all been flushed, every tracked one. It holds exactly the tracked
   events, in order, if and only if no insert was stored without the writer hearing of it.
   */
  lemma AtLeastOnce(steps: seq<Step>, batchSize: nat)
    requires batchSize >= 1
    ensures var s := Run(steps, batchSize);
      multiset(s.acknowledged) <= multiset(s.server)
      && (!s.isFlushing && s.queue == [] && Serialisable(s.tracked) ==>
            multiset(s.tracked) <= multiset(s.server) && (s.server == s.tracked <==> s.unheard == []))
  {
    var s := Run(steps, batchSize);
    RunDelivers(steps, batchSize);
    if !s.isFlushing && s.queue == [] && Serialisable(s.tracked) {
      AllArrivedIffSerialisable(steps, batchSize);
      assert |multiset(s.server)| == |multiset(s.acknowledged)| + |multiset(s.unheard)|;
      assert s.server == s.tracked ==> |s.unheard| == 0;
    }
  }

  lemma RunLast(steps: seq<Step>, last: Step, batchSize: nat)
    ensures Run(steps + [last], batchSize) == Next(Run(steps, batchSize), last, batchSize)
  {
    assert (steps + [last])[..|steps|] == steps;
  }

  /** With a batch size of one, an event goes straight into flight, from a caller or from the queue. */
  lemma SingleBatch(s: State, e: Event)
    requires e.serialisable && !s.isFlushing
    ensures s.queue == [] ==>
      Next(s, Track(e), 1) == s.(isFlushing := true, inFlight := Some([e]), tracked := s.tracked + [e])
    ensures s.queue == [e] ==> Next(s, Flush, 1) == s.(isFlushing := true, inFlight := Some([e]), queue := [])
  {
    assert [] + [e] == [e] && [e][..1] == [e] && [e][1..] == [];
    assert Serialisable([e]);
  }

  /** A reachable run in which the server ends up with an event twice. */
  lemma UnheardInsertDuplicates(e: Event) returns (steps: seq<Step>)
    requires e.serialisable
    ensures var s := Run(steps, 1);
      !s.isFlushing && s.queue == [] && s.tracked == [e] && s.server == [e] + [e]
  {
    steps := [] + [Track(e)];
    RunLast([], Track(e), 1);
    SingleBatch(INITIAL, e);
    var sent := INITIAL.(isFlushing := true, inFlight := Some([e]), tracked := [] + [e]);
    assert Run(steps, 1) == sent;
    RunLast(steps, Settle(Unheard), 1);
    steps := steps + [Settle(Unheard)];
    var back := Next(sent, Settle(Unheard), 1);
    assert back.queue == [e] + [] == [e] && back.server == [] + [e];
    RunLast(steps, Flush, 1);
    SingleBatch(back, e);
    steps := steps + [Flush];
    RunLast(steps, Settle(Acknowledged), 1);
    steps := steps + [Settle(Acknowledged)];
    assert Run(steps, 1).server == [] + [e] + [e];
  }

  /** One event that cannot be serialised takes its whole batch with it. */
  lemma PoisonedBatchIsDropped(good: Event, bad: Event)
    requires good.serialisable && !bad.serialisable
    ensures var s := Run([Track(good), Track(bad)], 2);
      s.dropped == [good, bad] && s.queue == [] && s.acknowledged == [] && !s.isFlushing
  {
    var steps := [Track(good), Track(bad)];
    assert steps[..1] == [Track(good)] && steps[..1][..0] == [];
    var one := INITIAL.(queue := [good], tracked := [good]);
    assert Run(steps[..1], 2) == one;
    var two := one.(queue := [good, bad], tracked := [good, bad], isFlushing := true);
    assert two.queue[..2] == [good, bad] && two.queue[2..] == [] && !two.queue[..2][1].serialisable;
    assert [good] + [bad] == [good, bad];
    assert Next(one, Track(bad), 2) == Drain(two, 2);
  }

  // ----- A flush whose inserts succeed drains the queue -----

  function RunFrom(s: State, steps: seq<Step>, batchSize: nat): State
    decreases |steps|
  {
    if steps == [] then s else RunFrom(Next(s, steps[0], batchSize), steps[1..], batchSize)
  }

  function Tracks(steps: seq<Step>): nat {
    if steps == [] then 0 else (if steps[0].Track? then 1 else 0) + Tracks(steps[1..])
  }

  function Settles(steps: seq<Step>): nat {
    if steps == [] then 0 else (if steps[0].Settle? then 1 else 0) + Settles(steps[1..])
  }

  /** All inserts succeed and every payload tracked meanwhile is serialisable. */
  predicate Favourable(steps: seq<Step>) {
    forall i :: 0 <= i < |steps| ==>
      (steps[i].Settle? ==> steps[i].answer.Acknowledged?) && (steps[i].Track? ==> steps[i].event.serialisable)
  }

  lemma FavourableTail(steps: seq<Step>)
    requires Favourable(steps) && steps != []
    ensures Favourable(steps[1..])
  {
    forall i | 0 <= i < |steps[1..]|
      ensures (steps[1..][i].Settle? ==> steps[1..][i].answer.Acknowledged?)
      ensures steps[1..][i].Track? ==> steps[1..][i].event.serialisable
    {
      assert steps[1..][i] == steps[i + 1];
    }
  }

  lemma RunFromTail(s: State, steps: seq<Step>, n: nat, batchSize: nat)
    requires 0 < n <= |steps|
    ensures RunFrom(s, steps[..n], batchSize) == RunFrom(Next(s, steps[0], batchSize), steps[1..][..n - 1], batchSize)
  {
    assert steps[..n][1..] == steps[1..][..n - 1];
  }

  /** Nothing left to send: no event queued and none in flight. */
  predicate Drained(s: State) {
    s.queue == [] && s.inFlight.None?
  }

  /** The first moment, counted in steps, at which no flush runs any more. */
  ghost predicate FlushEnds(s: State, steps: seq<Step>, end: nat, batchSize: nat) {
    end <= |steps| && !RunFrom(s, steps[..end], batchSize).isFlushing
    && forall k: nat | k < end :: RunFrom(s, steps[..k], batchSize).isFlushing
  }

  /**
   A running flush ends with an empty queue, however many events callers add meanwhile: it
   survives at most one insert for each event queued or added, and one more.
   */
  lemma {:induction false} FlushDrains(s: State, steps: seq<Step>, batchSize: nat) returns (end: nat)
    requires batchSize >= 1 && s.isFlushing && s.inFlight.Some?
    requires Serialisable(s.queue) && Favourable(steps)
    requires Settles(steps) > |s.queue| + Tracks(steps)
    ensures FlushEnds(s, steps, end, batchSize) && Drained(RunFrom(s, steps[..end], batchSize))
    decreases |steps|
  {
    var t := Next(s, steps[0], batchSize);
    assert steps[..0] == [];
    if steps[0].Settle? && s.queue == [] {
      end := 1;
      assert steps[..1][1..] == [];
    } else {
      FavourableTail(steps);
      var rest := FlushDrains(t, steps[1..], batchSize);
      end := rest + 1;
      RunFromTail(s, steps, end, batchSize);
      forall k: nat | k < end ensures RunFrom(s, steps[..k], batchSize).isFlushing {
        if k > 0 {
          RunFromTail(s, steps, k, batchSize);
          assert RunFrom(t, steps[1..][..k - 1], batchSize).isFlushing;
        }
      }
    }
  }

  // ----- What a flush takes, and where it stops -----

  /** A batch at the head of a queue: full, or all there is. */
  predicate HeadOf(batch: seq<Event>, rest: seq<Event>, queue: seq<Event>, batchSize: nat) {
    batch + rest == queue && |batch| <= batchSize && (|batch| < batchSize ==> rest == [])
  }

  /** A flush that starts takes a full batch or the whole queue: into flight, or lost if it cannot be serialised. */
  lemma FlushTakesFullBatch(s: State, batchSize: nat) returns (batch: seq<Event>)
    requires batchSize >= 1 && !s.isFlushing && s.queue != []
    ensures var t := Next(s, Flush, batchSize);
      HeadOf(batch, t.queue, s.queue, batchSize)
      && if Serialisable(batch) then t == s.(queue := t.queue, isFlushing := true, inFlight := Some(batch))
         else t == s.(queue := t.queue, lastFailed := true, dropped := s.dropped + batch)
  {
    batch := s.queue[..BatchLength(s, batchSize)];
  }

  /** After a stored and answered insert the flush takes the next batch, or ends on an empty queue. */
  lemma AckTakesFullBatch(s: State, batchSize: nat) returns (batch: seq<Event>)
    requires batchSize >= 1 && s.isFlushing && s.inFlight.Some? && Serialisable(s.queue)
    ensures var t := Next(s, Settle(Acknowledged), batchSize);
      t.acknowledged == s.acknowledged + s.inFlight.value && HeadOf(batch, t.queue, s.queue, batchSize)
      && (s.queue == [] ==> !t.isFlushing && t.inFlight.None?)
      && (s.queue != [] ==> batch != [] && t.isFlushing && t.inFlight == Some(batch) && Serialisable(t.queue))
  {
    var n := BatchLength(s, batchSize);
    batch := s.queue[..n];
    assert s.queue == batch + s.queue[n..] + [];
    SerialisableParts(batch, s.queue[n..], []);
  }

  /** How many batches that many events make. */
  function Batches(events: nat, batchSize: nat): nat
    requires batchSize >= 1
  {
    if events == 0 then 0 else if events <= batchSize then 1 else 1 + Batches(events - batchSize, batchSize)
  }

  /** The quotient, rounded up. */
  lemma {:induction false} BatchesCover(events: nat, batchSize: nat)
    requires batchSize >= 1
    ensures var n := Batches(events, batchSize);
      events <= n * batchSize && (n > 0 ==> (n - 1) * batchSize < events)
  {
    if events > batchSize {
      var m := Batches(events - batchSize, batchSize);
      BatchesCover(events - batchSize, batchSize);
      assert (m + 1) * batchSize == m * batchSize + batchSize;
      assert m * batchSize == (m - 1) * batchSize + batchSize;
    }
  }

  /** With no events added meanwhile a flush needs just as many inserts as batches, and the one in flight. */
  lemma {:induction false} FlushNeedsJust(s: State, steps: seq<Step>, end: nat, batchSize: nat)
    requires batchSize >= 1 && s.isFlushing && s.inFlight.Some? && Serialisable(s.queue)
    requires Favourable(steps) && Tracks(steps) == 0 && FlushEnds(s, steps, end, batchSize)
    ensures Settles(steps[..end]) == 1 + Batches(|s.queue|, batchSize)
    decreases |steps|
  {
    assert steps[..0] == [] && end > 0;
    assert steps[..end][1..] == steps[1..][..end - 1];
    RunFromTail(s, steps, end, batchSize);
    FavourableTail(steps);
    var t := Next(s, steps[0], batchSize);
    if steps[0].Flush? {
      EndsLater(s, steps, end, batchSize);
      FlushNeedsJust(s, steps[1..], end - 1, batchSize);
    } else if s.queue == [] {
      assert RunFrom(s, steps[..1], batchSize) == t by { assert steps[..1][1..] == []; }
      assert end == 1;
    } else {
      var batch := AckTakesFullBatch(s, batchSize);
      EndsLater(s, steps, end, batchSize);
      FlushNeedsJust(t, steps[1..], end - 1, batchSize);
    }
  }

  lemma EndsLater(s: State, steps: seq<Step>, end: nat, batchSize: nat)
    requires steps != [] && FlushEnds(s, steps, end, batchSize) && s.isFlushing
    requires Next(s, steps[0], batchSize).isFlushing
    ensures end > 0 && FlushEnds(Next(s, steps[0], batchSize), steps[1..], end - 1, batchSize)
  {
    assert steps[..0] == [] && steps[1..][..0] == [];
    RunFromTail(s, steps, end, batchSize);
    forall k: nat | k < end - 1 ensures RunFrom(Next(s, steps[0], batchSize), steps[1..][..k], batchSize).isFlushing {
      RunFromTail(s, steps, k + 1, batchSize);
      assert RunFrom(s, steps[..k + 1], batchSize).isFlushing;
    }
  }

  /** The events that callers add in these steps, in order. */
  function Added(steps: seq<Step>): seq<Event> {
    if steps == [] then [] else (if steps[0].Track? then [steps[0].event] else []) + Added(steps[1..])
  }

  /** The state once callers have added these events, while an insert is awaited. */
  function WithAdded(s: State, events: seq<Event>): State {
    s.(queue := s.queue + events, tracked := s.tracked + events)
  }

  lemma AddedTwice(s: State, a: seq<Event>, b: seq<Event>)
    ensures WithAdded(WithAdded(s, a), b) == WithAdded(s, a + b) && WithAdded(s, []) == s
  {
    assert s.queue + a + b == s.queue + (a + b) && s.tracked + a + b == s.tracked + (a + b);
    assert s.queue + [] == s.queue && s.tracked + [] == s.tracked;
  }

  /** While an insert is awaited the steps of others only add to the queue. */
  lemma {:induction false} AwaitingOnlyQueues(s: State, steps: seq<Step>, batchSize: nat)
    requires s.isFlushing && Settles(steps) == 0
    ensures RunFrom(s, steps, batchSize) == WithAdded(s, Added(steps))
    decreases |steps|
  {
    AddedTwice(s, [], []);
    if steps != [] {
      var own := if steps[0].Track? then [steps[0].event] else [];
      assert Next(s, steps[0], batchSize) == WithAdded(s, own);
      AwaitingOnlyQueues(WithAdded(s, own), steps[1..], batchSize);
      AddedTwice(s, own, Added(steps[1..]));
    }
  }

  lemma {:induction false} RunFromLast(s: State, steps: seq<Step>, last: Step, batchSize: nat)
    ensures RunFrom(s, steps + [last], batchSize) == Next(RunFrom(s, steps, batchSize), last, batchSize)
    decreases |steps|
  {
    if steps == [] {
      assert [] + [last] == [last] && [last][1..] == [];
    } else {
      assert (steps + [last])[1..] == steps[1..] + [last];
      RunFromLast(Next(s, steps[0], batchSize), steps[1..], last, batchSize);
    }
  }

  /**
   A flush stops at its first failed insert: exactly then it ends, nothing is in flight, and the queue
   is the batch, what was queued before, and what callers added meanwhile, in that order. The server
   has the batch if and only if it was stored unheard.
   */
  lemma FirstFailureStops(s: State, steps: seq<Step>, answer: Answer, batchSize: nat)
    requires s.isFlushing && s.inFlight.Some? && Settles(steps) == 0 && !answer.Acknowledged?
    ensures FlushEnds(s, steps + [Settle(answer)], |steps| + 1, batchSize)
    ensures var t := RunFrom(s, steps + [Settle(answer)], batchSize);
      t.inFlight.None? && t.queue == s.inFlight.value + s.queue + Added(steps)
      && t.acknowledged == s.acknowledged && t.dropped == s.dropped
      && t.server == s.server + if answer.Unheard? then s.inFlight.value else []
  {
    var all := steps + [Settle(answer)];
    RunFromLast(s, steps, Settle(answer), batchSize);
    AwaitingOnlyQueues(s, steps, batchSize);
    assert s.inFlight.value + (s.queue + Added(steps)) == s.inFlight.value + s.queue + Added(steps);
    assert all[..|steps| + 1] == all;
    forall k: nat | k <= |steps| ensures RunFrom(s, all[..k], batchSize).isFlushing {
      assert all[..k] == steps[..k];
      NoSettles(steps, k);
      AwaitingOnlyQueues(s, steps[..k], batchSize);
    }
  }

  lemma {:induction false} NoSettles(steps: seq<Step>, k: nat)
    requires Settles(steps) == 0 && k <= |steps|
    ensures Settles(steps[..k]) == 0
    decreases |steps|
  {
    if k > 0 {
      assert steps[..k][1..] == steps[1..][..k - 1];
      NoSettles(steps[1..], k - 1);
    }
  }

  // ----- What `flushAll` promises -----

  /** A flush call changes nothing exactly when it meets a running flush or an empty queue. */
  lemma FlushIsIdleIff(s: State, batchSize: nat)
    ensures Next(s, Flush, batchSize) == s <==> s.isFlushing || s.queue == []
  {
  }

  /**
   The promise of a `flushAll` call made in state `s` resolves after `end` further steps: at once
   when a flush was running or nothing was queued, else when the flush that the call started ends.
   */
  ghost predicate ResolvesAfter(s: State, steps: seq<Step>, end: nat, batchSize: nat) {
    if s.isFlushing then end == 0 else FlushEnds(Next(s, Flush, batchSize), steps, end, batchSize)
  }

  /** The state the caller finds when the promise has resolved. */
  function AfterFlushAll(s: State, steps: seq<Step>, end: nat, batchSize: nat): State
    requires end <= |steps|
  {
    RunFrom(Next(s, Flush, batchSize), steps[..end], batchSize)
  }

  /**
   `flushAll` drains if and only if it does not meet a running flush: in every reachable state and
   however favourably things go on, its promise resolves, and when it does nothing is left to send
   unless a flush was running at the call; then the batch in flight at least is still unsent.
   */
  lemma FlushAllDrainsIff(before: seq<Step>, steps: seq<Step>, batchSize: nat) returns (end: nat)
    requires batchSize >= 1 && Serialisable(Run(before, batchSize).queue) && Favourable(steps)
    requires Settles(steps) > |Run(before, batchSize).queue| + Tracks(steps)
    ensures var s := Run(before, batchSize);
      end <= |steps| && (forall e: nat :: ResolvesAfter(s, steps, e, batchSize) <==> e == end)
      && (Drained(AfterFlushAll(s, steps, end, batchSize)) <==> !s.isFlushing)
  {
    var s := Run(before, batchSize);
    var called := Next(s, Flush, batchSize);
    RunKeeps(before, batchSize);
    assert steps[..0] == [];
    if s.isFlushing || s.queue == [] {
      end := 0;
      FlushIsIdleIff(s, batchSize);
      if !s.isFlushing { assert FlushEnds(called, steps, 0, batchSize); }
    } else {
      StepKeeps(s, Flush, batchSize);
      QueueShrinks(s, batchSize);
      end := FlushDrains(called, steps, batchSize);
    }
  }

  /** A flush that starts on serialisable events takes a batch into flight and leaves the rest. */
  lemma QueueShrinks(s: State, batchSize: nat)
    requires batchSize >= 1 && !s.isFlushing && s.queue != [] && Serialisable(s.queue)
    ensures var t := Next(s, Flush, batchSize);
      t.isFlushing && t.inFlight.Some? && Serialisable(t.queue) && |t.queue| < |s.queue|
  {
    var n := BatchLength(s, batchSize);
    assert s.queue == s.queue[..n] + s.queue[n..] + [];
    SerialisableParts(s.queue[..n], s.queue[n..], []);
  }

  /** A reachable state in which `flushAll` resolves at once, one event queued and one in flight. */
  lemma FlushAllMeetsARunningFlush(first: Event, second: Event)
    requires first.serialisable && second.serialisable
    ensures var s := Run([Track(first), Track(second)], 1);
      ResolvesAfter(s, [], 0, 1) && AfterFlushAll(s, [], 0, 1) == s
      && s.inFlight == Some([first]) && s.queue == [second] && s.acknowledged == []
  {
    var steps := [Track(first), Track(second)];
    assert steps[..1] == [Track(first)] && steps[..1][..0] == [];
    var pushed := INITIAL.(queue := [first], tracked := [first], isFlushing := true);
    assert pushed.queue[..1] == [first] && pushed.queue[1..] == [];
    assert [] + [first] == [first];
    assert Run(steps[..1], 1) == Drain(pushed, 1) == pushed.(queue := [], inFlight := Some([first]));
    assert Run(steps, 1) == Next(Run(steps[..1], 1), Track(second), 1);
  }

  /** So against a server that is down a flush ends with its first answer, and `flushAll` resolves then. */
  lemma FlushAllResolvesWhenDown(s: State, steps: seq<Step>, answer: Answer, batchSize: nat)
    requires batchSize >= 1 && !s.isFlushing && s.queue != [] && Serialisable(s.queue)
    requires Settles(steps) == 0 && !answer.Acknowledged?
    ensures ResolvesAfter(s, steps + [Settle(answer)], |steps| + 1, batchSize)
    ensures AfterFlushAll(s, steps + [Settle(answer)], |steps| + 1, batchSize).queue == s.queue + Added(steps)
  {
    QueueShrinks(s, batchSize);
    var batch := FlushTakesFullBatch(s, batchSize);
    FirstFailureStops(Next(s, Flush, batchSize), steps, answer, batchSize);
    assert (steps + [Settle(answer)])[..|steps| + 1] == steps + [Settle(answer)];
  }
}
