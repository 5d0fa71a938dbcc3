/** When one circuit breaker trips, closes and lets probes through, told from the operations of the run alone. */
module BreakerEvidence {
  import opened BreakerRuns
  import opened Breakers
  import opened Clock
  import opened LeapRing

  // ---------------------------------------------------------------- what a completion is judged by

  /** The error strategies do not look at the response time; the slow request strategy does not look at the error, and
      at the response time only for whether it is above the allowed one. */
  lemma {:induction false} JudgedBy(b: Breaker, now: nat, rt: nat, rt': nat, err: bool, err': bool)
    requires WellFormed(b)
    ensures b.rule.strategy != SlowRequestRatio ==>
              OnRequestComplete(b, now, rt, err) == OnRequestComplete(b, now, rt', err)
    ensures b.rule.strategy == SlowRequestRatio && (rt > b.rule.maxAllowedRtMs <==> rt' > b.rule.maxAllowedRtMs) ==>
              OnRequestComplete(b, now, rt, err) == OnRequestComplete(b, now, rt', err')
  {
  }

  // ---------------------------------------------------------------- counting operations

  predicate Within(op: Op, len: nat, lo: int, hi: int)
    requires len > 0
  {
    op.Complete? && lo <= Align(op.now, len) <= hi
  }

  /** Completions in the buckets starting in `lo..hi`. */
  ghost function Finished(ops: seq<Op>, len: nat, lo: int, hi: int): nat
    requires len > 0
  {
    if |ops| == 0 then 0
    else Finished(ops[..|ops| - 1], len, lo, hi) + if Within(ops[|ops| - 1], len, lo, hi) then 1 else 0
  }

  /** Those that reported an error. */
  ghost function Failed(ops: seq<Op>, len: nat, lo: int, hi: int): nat
    requires len > 0
  {
    if |ops| == 0 then 0
    else
      var op := ops[|ops| - 1];
      Failed(ops[..|ops| - 1], len, lo, hi) + if Within(op, len, lo, hi) && op.err then 1 else 0
  }

  /** Those that took longer than `maxRt`. */
  ghost function Slow(ops: seq<Op>, maxRt: nat, len: nat, lo: int, hi: int): nat
    requires len > 0
  {
    if |ops| == 0 then 0
    else
      var op := ops[|ops| - 1];
      Slow(ops[..|ops| - 1], maxRt, len, lo, hi) + if Within(op, len, lo, hi) && op.rt > maxRt then 1 else 0
  }

  lemma {:induction false} TotalNext<T>(log: seq<Entry<T>>, e: Entry<T>, len: nat, lo: int, hi: int,
                                        w: T -> int)
    requires len > 0
    ensures Total(log + [e], len, lo, hi, w) ==
            Total(log, len, lo, hi, w) + if lo <= Align(e.time, len) <= hi then w(e.op) else 0
  {
    assert (log + [e])[..|log|] == log;
  }

  /** The log of a breaker holds the same numbers. */
  lemma {:induction false} LogCounts(rule: Rule, ops: seq<Op>, len: nat, lo: int, hi: int)
    requires len > 0
    ensures Total(Completions(rule, ops), len, lo, hi, IsRequest()) == Finished(ops, len, lo, hi)
    ensures Total(Completions(rule, ops), len, lo, hi, IsBad()) ==
            if rule.strategy == SlowRequestRatio then Slow(ops, rule.maxAllowedRtMs, len, lo, hi)
            else Failed(ops, len, lo, hi)
  {
    if |ops| > 0 {
      var init, op := ops[..|ops| - 1], ops[|ops| - 1];
      LogCounts(rule, init, len, lo, hi);
      if op.Complete? {
        var e := Entry(op.now, Bad(rule, op.rt, op.err));
        TotalNext(Completions(rule, init), e, len, lo, hi, IsRequest());
        TotalNext(Completions(rule, init), e, len, lo, hi, IsBad());
      } else {
        assert Completions(rule, ops) == Completions(rule, init);
      }
    }
  }

  // ---------------------------------------------------------------- trips

  /** The bucket length of the statistic: one bucket unless the configured count divides the interval. */
  function BucketMs(rule: Rule): nat {
    if rule.statSlidingWindowBucketCount != 0 && rule.statIntervalMs % rule.statSlidingWindowBucketCount == 0
    then rule.statIntervalMs / rule.statSlidingWindowBucketCount
    else rule.statIntervalMs
  }

  lemma {:induction false} BuiltShape(rule: Rule, born: nat)
    requires ValidRule(rule)
    ensures BucketMs(rule) > 0
    ensures var b := Built(rule, born).b;
            WellFormed(b) && b.rule == rule && b.stat.len == BucketMs(rule) && b.stat.interval == rule.statIntervalMs
  {
    ExactQuotient(rule.statIntervalMs, BucketCount(rule));
  }

  /** Too many of the finished requests are slow, respectively failed: as a share of them, or for the count strategy
      as a number. */
  predicate TooMany(rule: Rule, slow: nat, failed: nat, finished: nat) {
    match rule.strategy
    case SlowRequestRatio => slow as real > (rule.threshold - 0.00000001) * finished as real
    case ErrorRatio => failed as real > (rule.threshold - 0.00000001) * finished as real
    case ErrorCount => failed as real > rule.threshold - 1.0
    case Custom(_) => false
  }

  /** The operations `since` hold enough completions in the statistic window that ends at `now`, and too many bad
      ones. */
  ghost predicate Justified(rule: Rule, since: seq<Op>, now: nat)
    requires BucketMs(rule) > 0
  {
    var len := BucketMs(rule);
    var hi := Align(now, len);
    var lo := hi - rule.statIntervalMs + len;
    && Finished(since, len, lo, hi) >= rule.minRequestAmount
    && TooMany(rule, Slow(since, rule.maxAllowedRtMs, len, lo, hi), Failed(since, len, lo, hi),
               Finished(since, len, lo, hi))
  }

  lemma {:induction false} FinishedAtLast(ops: seq<Op>, len: nat, op: Op, lo: int)
    requires len > 0 && op.Complete? && lo <= Align(op.now, len)
    ensures Finished(ops + [op], len, lo, Align(op.now, len)) > 0
  {
    assert (ops + [op])[..|ops|] == ops;
  }

  lemma {:induction false} ExceedsIsTooMany(rule: Rule, slow: nat, failed: nat, total: nat)
    requires ValidRule(rule) && total > 0
    ensures Exceeds(rule, if rule.strategy == SlowRequestRatio then slow else failed, total) <==>
            TooMany(rule, slow, failed, total)
  {
    ExceedsMeans(rule, if rule.strategy == SlowRequestRatio then slow else failed, total);
  }

  lemma {:induction false} LogWith(rule: Rule, since: seq<Op>, op: Op)
    requires op.Complete?
    ensures Completions(rule, since + [op]) == Completions(rule, since) + [Entry(op.now, Bad(rule, op.rt, op.err))]
  {
    CompletionsNext(rule, since, op);
    assert [op][..0] == [];
  }

  lemma {:induction false} WindowOf(rule: Rule, since: seq<Op>, op: Op, len: nat, hi: int, lo: int)
    requires len > 0 && op.Complete? && hi == Align(op.now, len) && lo == hi - rule.statIntervalMs + len <= hi
    requires ValidRule(rule)
    ensures var log := Completions(rule, since) + [Entry(op.now, Bad(rule, op.rt, op.err))];
            && Requests(log, len, rule.statIntervalMs, op.now) == Finished(since + [op], len, lo, hi) > 0
            && BadRequests(log, len, rule.statIntervalMs, op.now) ==
               if rule.strategy == SlowRequestRatio then Slow(since + [op], rule.maxAllowedRtMs, len, lo, hi)
               else Failed(since + [op], len, lo, hi)
  {
    LogWith(rule, since, op);
    LogCounts(rule, since + [op], len, lo, hi);
    FinishedAtLast(since, len, op, lo);
  }

  lemma {:induction false} EvidenceIsJustified(rule: Rule, o: Observed, since: seq<Op>, op: Op)
    requires ValidRule(rule) && op.Complete? && WellFormed(o.b) && o.b.rule == rule
    requires o.b.stat.len == BucketMs(rule) && o.b.stat.interval == rule.statIntervalMs
    requires rule.statIntervalMs >= BucketMs(rule) && o.log == Completions(rule, since)
    ensures Evidence(o, op) <==> Justified(rule, since + [op], op.now)
  {
    var len := BucketMs(rule);
    var hi := Align(op.now, len);
    var lo := hi - rule.statIntervalMs + len;
    WindowOf(rule, since, op, len, hi, lo);
    ExceedsIsTooMany(rule, Slow(since + [op], rule.maxAllowedRtMs, len, lo, hi), Failed(since + [op], len, lo, hi),
                     Finished(since + [op], len, lo, hi));
  }

  lemma {:induction false} BucketInInterval(rule: Rule)
    requires rule.statIntervalMs > 0
    ensures 0 < BucketMs(rule) <= rule.statIntervalMs
  {
    if rule.statSlidingWindowBucketCount != 0 && rule.statIntervalMs % rule.statSlidingWindowBucketCount == 0 {
      ExactQuotient(rule.statIntervalMs, rule.statSlidingWindowBucketCount);
      MulMonotone(1, rule.statSlidingWindowBucketCount, BucketMs(rule));
    }
  }

  /** In every run, a closed breaker trips on a completion if and only if the operations since it last closed justify
      it. */
  lemma {:induction false} TripIff(rule: Rule, born: nat, ops: seq<Op>, op: Op)
    requires ValidRule(rule) && Legal(ops + [op], born) && op.Complete?
    ensures WellFormed(Built(rule, born).b) && BucketMs(rule) > 0
    ensures var o := Run(Built(rule, born), ops);
            var since := ops[LastClose(Built(rule, born), ops)..] + [op];
            o.b.state == Closed ==>
              (Apply(o.b, op).state == if Justified(rule, since, op.now) then Open else Closed)
  {
    BuiltShape(rule, born);
    BucketInInterval(rule);
    TripIffEvidence(rule, born, ops, op);
    LogIsSinceLastClose(Built(rule, born), ops);
    EvidenceIsJustified(rule, Run(Built(rule, born), ops), ops[LastClose(Built(rule, born), ops)..], op);
  }

  // ---------------------------------------------------------------- probes that decide

  /** Operation `i` is a completion that ended a half-open period. */
  predicate DecidedAt(o: Observed, ops: seq<Op>, i: nat)
    requires WellFormed(o.b) && i < |ops|
  {
    ops[i].Complete? && Run(o, ops[..i]).b.state == HalfOpen && Run(o, ops[..i + 1]).b.state != HalfOpen
  }

  /** Number of operations up to and with the latest one that ended a half-open period, or 0. */
  function LastDecision(o: Observed, ops: seq<Op>): (k: nat)
    requires WellFormed(o.b)
    ensures k <= |ops|
  {
    if |ops| == 0 then 0
    else if DecidedAt(o, ops, |ops| - 1) then |ops|
    else LastDecision(o, ops[..|ops| - 1])
  }

  /** Completions from operation `k` on that found the breaker half-open and were neither slow, respectively failed. */
  function GoodProbes(o: Observed, ops: seq<Op>, k: nat): nat
    requires WellFormed(o.b)
  {
    if |ops| <= k then 0
    else
      var init, op := ops[..|ops| - 1], ops[|ops| - 1];
      GoodProbes(o, init, k) +
      if op.Complete? && Run(o, init).b.state == HalfOpen &&
         (if o.b.rule.strategy == SlowRequestRatio then op.rt <= o.b.rule.maxAllowedRtMs else !op.err) then 1 else 0
  }

  lemma {:induction false} SuccessStep(o: Observed, op: Op)
    requires WellFormed(o.b) && (op.Complete? ==> Touch(o.b.stat, op.now, ZERO).Some?)
    ensures Observe(o, op).successes ==
            if op.Complete? && o.b.state == HalfOpen then
              if Observe(o, op).b.state == HalfOpen then o.successes + 1 else 0
            else o.successes
    ensures op.Complete? && o.b.state == HalfOpen && Observe(o, op).b.state == HalfOpen ==>
              if o.b.rule.strategy == SlowRequestRatio then op.rt <= o.b.rule.maxAllowedRtMs else !op.err
  {
  }

  lemma {:induction false} LegalInit(ops: seq<Op>, born: nat)
    requires Legal(ops, born) && |ops| > 0
    ensures Legal(ops[..|ops| - 1], born) && ClockAfter(ops[..|ops| - 1], born) <= ops[|ops| - 1].now
  {
    var init := ops[..|ops| - 1];
    assert forall i :: 0 <= i < |init| ==> init[i] == ops[i];
  }

  /** The probe counter counts them. */
  lemma {:induction false} SuccessesAreGoodProbes(rule: Rule, born: nat, ops: seq<Op>)
    requires ValidRule(rule) && Legal(ops, born) && WellFormed(Built(rule, born).b)
    ensures var o := Built(rule, born);
            Run(o, ops).successes == GoodProbes(o, ops, LastDecision(o, ops))
  {
    var o := Built(rule, born);
    if |ops| > 0 {
      var init, op := ops[..|ops| - 1], ops[|ops| - 1];
      LegalInit(ops, born);
      SuccessesAreGoodProbes(rule, born, init);
      RunKeepsInv(rule, born, init);
      if op.Complete? {
        CountedRepresents(Run(o, init), born, ClockAfter(init, born), FloorAfter(o, init), op);
      }
      SuccessStep(Run(o, init), op);
      assert ops[..|ops|] == ops;
    }
  }

  /** In every run, a half-open breaker opens on a completion that is slow, respectively failed, and otherwise closes
      exactly when as many good ones as probes are configured, at least one, have finished since its last decision. */
  lemma {:induction false} CloseIff(rule: Rule, born: nat, ops: seq<Op>, op: Op)
    requires ValidRule(rule) && Legal(ops + [op], born) && op.Complete?
    ensures WellFormed(Built(rule, born).b)
    ensures var o := Built(rule, born);
            var good := GoodProbes(o, ops, LastDecision(o, ops)) + 1;
            Run(o, ops).b.state == HalfOpen ==>
              (Apply(Run(o, ops).b, op).state ==
               if (if rule.strategy == SlowRequestRatio then op.rt > rule.maxAllowedRtMs else op.err) then Open
               else if good == rule.probeNum || rule.probeNum == 0 then Closed
               else HalfOpen)
  {
    CloseIffEnoughSuccesses(rule, born, ops, op);
    LegalInit(ops + [op], born);
    assert (ops + [op])[..|ops|] == ops;
    SuccessesAreGoodProbes(rule, born, ops);
    RunKeepsInv(rule, born, ops);
  }

  // ---------------------------------------------------------------- probes that are let through

  /** Requests let through from operation `i` of the run on. */
  function Grants(b: Breaker, ops: seq<Op>, i: nat): nat
    requires WellFormed(b)
  {
    if |ops| <= i then 0
    else
      var init, op := ops[..|ops| - 1], ops[|ops| - 1];
      Grants(b, init, i) + if op.Try? && TryPass(RunBreaker(b, init), op.now).1 then 1 else 0
  }

  /** Requests that asked from operation `i` on. */
  function Asked(ops: seq<Op>, i: nat): nat {
    if |ops| <= i then 0 else Asked(ops[..|ops| - 1], i) + if ops[|ops| - 1].Try? then 1 else 0
  }

  lemma {:induction false} RunKeepsRule(b: Breaker, ops: seq<Op>)
    requires WellFormed(b)
    ensures RunBreaker(b, ops).rule == b.rule
  {
    if |ops| > 0 {
      RunKeepsRule(b, ops[..|ops| - 1]);
    }
  }

  /** In every run, from the operation that makes the breaker half-open until its state changes again, exactly one
      request is let through when no number of probes is configured: the one that made the move. With any number of
      probes configured, every request is let through, without a limit. */
  lemma {:induction false} ProbesLetThrough(b: Breaker, ops: seq<Op>, i: nat)
    requires WellFormed(b) && i < |ops| && RunBreaker(b, ops[..i]).state == Open
    requires forall k :: i < k <= |ops| ==> RunBreaker(b, ops[..k]).state == HalfOpen
    ensures ops[i].Try?
    ensures Grants(b, ops, i) == if b.rule.probeNum == 0 then 1 else Asked(ops, i)
  {
    var init, op := ops[..|ops| - 1], ops[|ops| - 1];
    RunKeepsRule(b, init);
    assert RunBreaker(b, ops[..i + 1]).state == HalfOpen;
    assert ops[..i + 1][..i] == ops[..i];
    assert ops[..|ops|] == ops;
    if i < |init| {
      assert init[..i] == ops[..i];
      forall k | i < k <= |init|
        ensures RunBreaker(b, init[..k]).state == HalfOpen
      {
        assert init[..k] == ops[..k];
      }
      ProbesLetThrough(b, init, i);
      assert RunBreaker(b, ops[..|init|]).state == HalfOpen;
    }
  }

  // ---------------------------------------------------------------- state changes

  /** In every run the state changes that the listeners are told start in Closed, hang together, end in the current
      state, and each is a trip, a probe, a return to open or a recovery. */
  lemma {:induction false} ListenersSeeTheStates(rule: Rule, born: nat, ops: seq<Op>)
    requires ValidRule(rule) && Legal(ops, born)
    ensures WellFormed(Built(rule, born).b)
    ensures var b := Run(Built(rule, born), ops).b;
            && (forall i :: 0 <= i < |b.events| ==>
                  || b.events[i] == Edge(Closed, Open) || b.events[i] == Edge(Open, HalfOpen)
                  || b.events[i] == Edge(HalfOpen, Open) || b.events[i] == Edge(HalfOpen, Closed))
            && (forall i :: 0 < i < |b.events| ==> b.events[i - 1].to == b.events[i].from)
            && (|b.events| > 0 ==> b.events[0].from == Closed)
            && b.state == if |b.events| > 0 then b.events[|b.events| - 1].to else Closed
  {
    RunKeepsInv(rule, born, ops);
    PathIsChain(Run(Built(rule, born), ops).b.events, Run(Built(rule, born), ops).b.state);
  }

  lemma {:induction false} PathIsChain(events: seq<Edge>, end: BreakerState)
    requires Path(events, Closed, end)
    ensures forall i :: 0 <= i < |events| ==>
                          || events[i] == Edge(Closed, Open) || events[i] == Edge(Open, HalfOpen)
                          || events[i] == Edge(HalfOpen, Open) || events[i] == Edge(HalfOpen, Closed)
    ensures forall i :: 0 < i < |events| ==> events[i - 1].to == events[i].from
    ensures |events| > 0 ==> events[0].from == Closed
    ensures end == if |events| > 0 then events[|events| - 1].to else Closed
  {
    if |events| > 0 {
      PathIsChain(events[..|events| - 1], events[|events| - 1].from);
    }
  }
}
