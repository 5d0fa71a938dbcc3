/** What holds of one circuit breaker in every run. */
module BreakerRuns {
  import opened Breakers
  import opened Clock
  import opened LeapRing

  function Run(o: Observed, ops: seq<Op>): (o': Observed)
    requires WellFormed(o.b)
    ensures WellFormed(o'.b) && o'.b.rule == o.b.rule && o'.b.stat.len == o.b.stat.len
    ensures o'.b.stat.interval == o.b.stat.interval
  {
    if |ops| == 0 then o else Observe(Run(o, ops[..|ops| - 1]), ops[|ops| - 1])
  }

  predicate Legal(ops: seq<Op>, born: nat) {
    && (forall i :: 0 <= i < |ops| ==> born <= ops[i].now && 0 < ops[i].now)
    && (forall i, j :: 0 <= i < j < |ops| ==> ops[i].now <= ops[j].now)
  }

  function ClockAfter(ops: seq<Op>, born: nat): nat {
    if |ops| == 0 then born else ops[|ops| - 1].now
  }

  function FloorAfter(o: Observed, ops: seq<Op>): int
    requires WellFormed(o.b)
  {
    if |ops| == 0 then 0
    else
      var init := ops[..|ops| - 1];
      NextFloor(Run(o, init), ops[|ops| - 1], FloorAfter(o, init))
  }

  /** A freshly built breaker, with nothing observed yet. */
  function Built(rule: Rule, born: nat): Observed
    requires ValidRule(rule)
  {
    Observed(NewBreaker(rule, born), [], 0)
  }

  lemma {:induction false} BuiltInv(rule: Rule, born: nat)
    requires ValidRule(rule)
    ensures WellFormed(Built(rule, born).b) && Inv(Built(rule, born), born, born, 0)
  {
    var n := BucketCount(rule);
    ExactQuotient(rule.statIntervalMs, n);
    NewRepresents(n, rule.statIntervalMs / n, born, COUNTERS);
  }

  lemma {:induction false} IntervalAtLeastBucket<V>(r: Ring<V>)
    requires Sized(r)
    ensures r.len <= r.interval
  {
    MulMonotone(1, |r.slots|, r.len);
  }

  /** A counted completion, before any state change. */
  lemma {:induction false} CountedRepresents(o: Observed, born: nat, last: nat, floor: int, op: Op)
    requires Inv(o, born, last, floor) && last <= op.now && 0 < op.now && op.Complete?
    ensures Touch(o.b.stat, op.now, ZERO).Some?
    ensures var bad := Bad(o.b.rule, op.rt, op.err);
            var stat := Record(o.b.stat, op.now, bad, COUNTERS);
            && Represents(stat, o.log + [Entry(op.now, bad)], born, op.now, floor, COUNTERS)
            && |stat.slots| == |o.b.stat.slots| && stat.len == o.b.stat.len && stat.interval == o.b.stat.interval
            && stat.slots[SlotOf(op.now, stat.len, |stat.slots|)].start == Align(op.now, stat.len)
  {
    AlignFacts(op.now, o.b.stat.len);
    IntervalAtLeastBucket(o.b.stat);
    TouchRepresents(o.b.stat, o.log, born, last, floor, COUNTERS, op.now);
    RecordRepresents(o.b.stat, o.log, born, last, floor, COUNTERS, op.now, Bad(o.b.rule, op.rt, op.err));
  }

  /** What a completion does to the statistic: counted, and wiped when it closes the breaker. */
  lemma {:induction false} CompleteStat(b: Breaker, op: Op)
    requires WellFormed(b) && op.Complete? && Touch(b.stat, op.now, ZERO).Some?
    ensures var counted := Record(b.stat, op.now, Bad(b.rule, op.rt, op.err), COUNTERS);
            Apply(b, op).stat ==
            if b.state == HalfOpen && Apply(b, op).state == Closed then Clear(counted, op.now, ZERO)
            else counted
  {
  }

  lemma {:induction false} StepStat(o: Observed, born: nat, last: nat, floor: int, op: Op)
    requires Inv(o, born, last, floor) && WellFormed(o.b) && last <= op.now && 0 < op.now
    ensures Represents(Observe(o, op).b.stat, Observe(o, op).log, born, op.now, NextFloor(o, op, floor), COUNTERS)
  {
    if op.Complete? {
      CountedRepresents(o, born, last, floor, op);
      CompleteStat(o.b, op);
      if o.b.state == HalfOpen && Apply(o.b, op).state == Closed {
        var bad := Bad(o.b.rule, op.rt, op.err);
        ClearRepresents(Record(o.b.stat, op.now, bad, COUNTERS), o.log + [Entry(op.now, bad)], born, op.now, floor,
                        COUNTERS, op.now);
      }
    } else {
      LaterLast(o.b.stat, o.log, born, last, op.now, floor, COUNTERS);
    }
  }

  lemma {:induction false} StepProbes(o: Observed, op: Op)
    requires WellFormed(o.b) && o.b.curProbe == o.successes < Needed(o.b.rule)
    requires op.Complete? ==> Touch(o.b.stat, op.now, ZERO).Some?
    ensures Observe(o, op).b.curProbe == Observe(o, op).successes < Needed(o.b.rule)
  {
  }

  lemma {:induction false} StepKeepsInv(o: Observed, born: nat, last: nat, floor: int, op: Op)
    requires Inv(o, born, last, floor) && WellFormed(o.b) && last <= op.now && 0 < op.now
    ensures Inv(Observe(o, op), born, op.now, NextFloor(o, op, floor))
  {
    StepPath(o.b, op);
    StepStat(o, born, last, floor, op);
    TouchRepresents(o.b.stat, o.log, born, last, floor, COUNTERS, op.now);
    StepProbes(o, op);
  }

  /** In every run of a freshly built breaker the counters stand for the completions since it last closed, the probe
      counter for the half-open successes, and the listeners have seen a path of legal edges from Closed. */
  lemma {:induction false} RunKeepsInv(rule: Rule, born: nat, ops: seq<Op>)
    requires ValidRule(rule) && Legal(ops, born)
    ensures WellFormed(Built(rule, born).b)
    ensures Inv(Run(Built(rule, born), ops), born, ClockAfter(ops, born), FloorAfter(Built(rule, born), ops))
  {
    BuiltInv(rule, born);
    if |ops| > 0 {
      var init := ops[..|ops| - 1];
      RunKeepsInv(rule, born, init);
      StepKeepsInv(Run(Built(rule, born), init), born, ClockAfter(init, born), FloorAfter(Built(rule, born), init),
                   ops[|ops| - 1]);
    }
  }

  // ---------------------------------------------------------------- trips

  /** Number of logged completions, and of bad ones, in the window of whole buckets that ends at `now`. */
  ghost function Requests(log: seq<Entry<bool>>, len: nat, interval: nat, now: nat): int
    requires len > 0
  {
    Total(log, len, Align(now, len) - interval + len, Align(now, len), IsRequest())
  }

  ghost function BadRequests(log: seq<Entry<bool>>, len: nat, interval: nat, now: nat): int
    requires len > 0
  {
    Total(log, len, Align(now, len) - interval + len, Align(now, len), IsBad())
  }

  /** The completions since the breaker last closed, with the present one, justify a trip. */
  ghost predicate Evidence(o: Observed, op: Op)
    requires WellFormed(o.b) && op.Complete?
  {
    var log := o.log + [Entry(op.now, Bad(o.b.rule, op.rt, op.err))];
    var requests := Requests(log, o.b.stat.len, o.b.stat.interval, op.now);
    var bad := BadRequests(log, o.b.stat.len, o.b.stat.interval, op.now);
    requests >= o.b.rule.minRequestAmount && Exceeds(o.b.rule, bad, requests)
  }

  /** The threshold test without a division: for the ratio strategies, the share of bad requests is above the
      threshold less the comparison precision; for the count strategy, the threshold is cut to a whole number. */
  lemma {:induction false} ExceedsMeans(rule: Rule, bad: nat, total: nat)
    requires rule.strategy != ErrorCount ==> total > 0
    ensures rule.strategy != ErrorCount ==>
              (Exceeds(rule, bad, total) <==> bad as real > (rule.threshold - PRECISION) * total as real)
    ensures rule.strategy == ErrorCount ==> (Exceeds(rule, bad, total) <==> bad as real > rule.threshold - 1.0)
  {
    if rule.strategy != ErrorCount {
      var n, ratio, limit := total as real, bad as real / total as real, rule.threshold - PRECISION;
      assert ratio * n == bad as real;
      assert Exceeds(rule, bad, total) <==> ratio > limit;
      if ratio > limit {
        assert (ratio - limit) * n > 0.0;
      } else {
        assert (limit - ratio) * n >= 0.0;
      }
    }
  }

  lemma {:induction false} WindowCountsExact(stat: Ring<Counter>, log: seq<Entry<bool>>, born: nat, floor: int,
                                             now: Millis)
    requires Represents(stat, log, born, now, floor, COUNTERS) && (floor <= 0 || floor <= now - stat.interval)
    requires stat.slots[SlotOf(now, stat.len, |stat.slots|)].start == Align(now, stat.len)
    ensures WindowCounts(stat, now) ==
            (BadRequests(log, stat.len, stat.interval, now), Requests(log, stat.len, stat.interval, now))
  {
    CountersAdd();
    FullRead(stat, log, born, floor, COUNTERS, now, ReadBad(), IsBad());
    FullRead(stat, log, born, floor, COUNTERS, now, ReadTotal(), IsRequest());
  }

  lemma {:induction false} CountsExact(o: Observed, born: nat, last: nat, floor: int, op: Op)
    requires Inv(o, born, last, floor) && WellFormed(o.b) && last <= op.now && 0 < op.now && op.Complete?
    ensures var bad := Bad(o.b.rule, op.rt, op.err);
            var log := o.log + [Entry(op.now, bad)];
            WindowCounts(Record(o.b.stat, op.now, bad, COUNTERS), op.now) ==
            (BadRequests(log, o.b.stat.len, o.b.stat.interval, op.now),
             Requests(log, o.b.stat.len, o.b.stat.interval, op.now))
  {
    var bad := Bad(o.b.rule, op.rt, op.err);
    CountedRepresents(o, born, last, floor, op);
    WindowCountsExact(Record(o.b.stat, op.now, bad, COUNTERS), o.log + [Entry(op.now, bad)], born, floor, op.now);
  }

  /** In every run, a closed breaker trips on a completion if and only if the completions in the statistic window
      since it last closed justify it. */
  lemma {:induction false} TripIffEvidence(rule: Rule, born: nat, ops: seq<Op>, op: Op)
    requires ValidRule(rule) && Legal(ops + [op], born) && op.Complete?
    ensures WellFormed(Built(rule, born).b)
    ensures var o := Run(Built(rule, born), ops);
            o.b.state == Closed ==>
              (Apply(o.b, op).state == if Evidence(o, op) then Open else Closed)
  {
    assert forall i :: 0 <= i < |ops| ==> (ops + [op])[i] == ops[i];
    assert (ops + [op])[|ops|] == op;
    RunKeepsInv(rule, born, ops);
    var o := Run(Built(rule, born), ops);
    TripStep(o, born, ClockAfter(ops, born), FloorAfter(Built(rule, born), ops), op);
  }

  lemma {:induction false} TripStep(o: Observed, born: nat, last: nat, floor: int, op: Op)
    requires Inv(o, born, last, floor) && WellFormed(o.b) && last <= op.now && 0 < op.now && op.Complete?
    ensures o.b.state == Closed ==> (Apply(o.b, op).state == if Evidence(o, op) then Open else Closed)
  {
    CountsExact(o, born, last, floor, op);
    CountedRepresents(o, born, last, floor, op);
  }

  /** The completions among the operations. */
  function Completions(rule: Rule, ops: seq<Op>): seq<Entry<bool>> {
    if |ops| == 0 then []
    else
      var op := ops[|ops| - 1];
      Completions(rule, ops[..|ops| - 1]) + (if op.Complete? then [Entry(op.now, Bad(rule, op.rt, op.err))] else [])
  }

  /** Operation `i` of the run closed the breaker from half-open. */
  predicate ClosedAt(o: Observed, ops: seq<Op>, i: nat)
    requires WellFormed(o.b) && i < |ops|
  {
    Run(o, ops[..i]).b.state == HalfOpen && Run(o, ops[..i + 1]).b.state == Closed
  }

  /** Only a completion closes the breaker, and then the log starts anew. */
  lemma {:induction false} ObserveLog(o: Observed, op: Op)
    requires WellFormed(o.b)
    ensures var closes := o.b.state == HalfOpen && Observe(o, op).b.state == Closed;
            Observe(o, op).log == if closes then [] else o.log + Completions(o.b.rule, [op])
  {
    assert [op][..0] == [];
  }

  lemma {:induction false} CompletionsNext(rule: Rule, ops: seq<Op>, op: Op)
    ensures Completions(rule, ops + [op]) == Completions(rule, ops) + Completions(rule, [op])
  {
    assert (ops + [op])[..|ops|] == ops && [op][..0] == [];
  }

  lemma {:induction false} ClosedAtPrefix(o: Observed, ops: seq<Op>, m: nat, i: nat)
    requires WellFormed(o.b) && i < m <= |ops|
    ensures ClosedAt(o, ops[..m], i) == ClosedAt(o, ops, i)
  {
    assert ops[..m][..i] == ops[..i] && ops[..m][..i + 1] == ops[..i + 1];
  }

  /** The last operation of a run. */
  lemma {:induction false} LogNext(o: Observed, ops: seq<Op>)
    requires WellFormed(o.b) && |ops| > 0
    ensures Run(o, ops).log ==
            if ClosedAt(o, ops, |ops| - 1) then []
            else Run(o, ops[..|ops| - 1]).log + Completions(o.b.rule, [ops[|ops| - 1]])
  {
    assert ops[..|ops|] == ops;
    ObserveLog(Run(o, ops[..|ops| - 1]), ops[|ops| - 1]);
  }

  /** Number of operations up to and with the latest move from half-open to closed, or 0. */
  function LastClose(o: Observed, ops: seq<Op>): (k: nat)
    requires WellFormed(o.b)
    ensures k <= |ops|
  {
    if |ops| == 0 then 0
    else if ClosedAt(o, ops, |ops| - 1) then |ops|
    else LastClose(o, ops[..|ops| - 1])
  }

  lemma {:induction false} LastCloseIsLatest(o: Observed, ops: seq<Op>, i: nat)
    requires WellFormed(o.b) && i < |ops|
    ensures LastClose(o, ops) <= i ==> !ClosedAt(o, ops, i)
    ensures LastClose(o, ops) == i + 1 ==> ClosedAt(o, ops, i)
  {
    if i < |ops| - 1 {
      LastCloseIsLatest(o, ops[..|ops| - 1], i);
      ClosedAtPrefix(o, ops, |ops| - 1, i);
    }
  }

  lemma {:induction false} SuffixNext(ops: seq<Op>, k: nat)
    requires k < |ops|
    ensures ops[k..] == ops[..|ops| - 1][k..] + [ops[|ops| - 1]]
  {
  }

  lemma {:induction false} LogGrows(o: Observed, ops: seq<Op>, init: seq<Op>, k: nat)
    requires WellFormed(o.b) && |ops| > 0 && init == ops[..|ops| - 1] && k <= |init| && !ClosedAt(o, ops, |ops| - 1)
    requires Run(o, init).log == Completions(o.b.rule, init[k..])
    ensures Run(o, ops).log == Completions(o.b.rule, ops[k..])
  {
    var op := ops[|ops| - 1];
    LogNext(o, ops);
    CompletionsNext(o.b.rule, init[k..], op);
    SuffixNext(ops, k);
  }

  /** The completions a trip is judged by are those after the latest move from half-open to closed. */
  lemma {:induction false} LogIsSinceLastClose(o: Observed, ops: seq<Op>)
    requires WellFormed(o.b) && o.log == []
    ensures Run(o, ops).log == Completions(o.b.rule, ops[LastClose(o, ops)..])
  {
    if |ops| > 0 {
      if ClosedAt(o, ops, |ops| - 1) {
        LogNext(o, ops);
      } else {
        LogIsSinceLastClose(o, ops[..|ops| - 1]);
        LogGrows(o, ops, ops[..|ops| - 1], LastClose(o, ops));
      }
    }
  }

  // ---------------------------------------------------------------- probes and the open period

  /** In every run, a half-open breaker closes on a success exactly when it is the last one needed, and opens on
      a failure. */
  lemma {:induction false} CloseIffEnoughSuccesses(rule: Rule, born: nat, ops: seq<Op>, op: Op)
    requires ValidRule(rule) && Legal(ops + [op], born) && op.Complete?
    ensures WellFormed(Built(rule, born).b)
    ensures var o := Run(Built(rule, born), ops);
            o.b.state == HalfOpen ==>
              (Apply(o.b, op).state ==
               if Bad(rule, op.rt, op.err) then Open
               else if o.successes + 1 == Needed(rule) then Closed
               else HalfOpen)
  {
    assert forall i :: 0 <= i < |ops| ==> (ops + [op])[i] == ops[i];
    assert (ops + [op])[|ops|] == op;
    RunKeepsInv(rule, born, ops);
    CountedRepresents(Run(Built(rule, born), ops), born, ClockAfter(ops, born), FloorAfter(Built(rule, born), ops), op);
  }

  function RunBreaker(b: Breaker, ops: seq<Op>): (b': Breaker)
    requires WellFormed(b)
    ensures WellFormed(b')
  {
    if |ops| == 0 then b else Apply(RunBreaker(b, ops[..|ops| - 1]), ops[|ops| - 1])
  }

  lemma {:induction false} StaysOpen(b: Breaker, ops: seq<Op>)
    requires WellFormed(b) && b.state == Open
    requires forall i :: 0 <= i < |ops| ==> ops[i].now < b.nextRetry
    ensures RunBreaker(b, ops).state == Open && RunBreaker(b, ops).nextRetry == b.nextRetry
  {
    if |ops| > 0 {
      var init := ops[..|ops| - 1];
      assert forall i :: 0 <= i < |init| ==> init[i] == ops[i];
      StaysOpen(b, init);
    }
  }

  /** After a trip or a failed probe a request is let through exactly from the end of the retry timeout on, whatever
      completes and whichever hooks run before. */
  lemma {:induction false} OpenPeriodRespected(b: Breaker, trip: Op, ops: seq<Op>, t: nat)
    requires WellFormed(b) && trip.Complete? && b.state != Open && Apply(b, trip).state == Open
    requires forall i :: 0 <= i < |ops| ==> ops[i].now < trip.now + b.rule.retryTimeoutMs
    ensures TryPass(RunBreaker(Apply(b, trip), ops), t).1 <==> t >= trip.now + b.rule.retryTimeoutMs
  {
    StaysOpen(Apply(b, trip), ops);
  }

  /** The exit hook undoes a probe: apart from what the listeners saw, the breaker is as before, so that the next
      request may probe at once. */
  lemma {:induction false} RollbackUndoesProbe(b: Breaker, now: nat, later: nat)
    requires b.state == Open && b.nextRetry <= now <= later
    ensures TryPass(b, now).1 && TryPass(b, now).0.state == HalfOpen
    ensures var back := Rollback(TryPass(b, now).0);
            back == b.(events := b.events + [Edge(Open, HalfOpen), Edge(HalfOpen, Open)]) && TryPass(back, later).1
  {
  }
}
