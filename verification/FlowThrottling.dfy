/** The throttling flow checker: requests are spaced out so that the rate stays below the threshold. */
module FlowThrottling {

  datatype Verdict = Pass | Wait(ns: int) | Block

  datatype Checker = Checker(maxQueueingTimeNs: nat, statIntervalNs: nat, lastPassed: int)

  const NANOS_PER_MILLI := 1_000_000

  function NewChecker(timeoutMs: nat, statIntervalMs: nat): (c: Checker)
    ensures c.statIntervalNs > 0 && c.lastPassed == 0
    ensures c.maxQueueingTimeNs == timeoutMs * 1_000_000
    ensures c.statIntervalNs == if statIntervalMs == 0 then 1_000_000_000 else statIntervalMs * 1_000_000
  {
    Checker(timeoutMs * NANOS_PER_MILLI, (if statIntervalMs == 0 then 1000 else statIntervalMs) * NANOS_PER_MILLI, 0)
  }

  function Ceil(x: real): int {
    -(-x).Floor
  }

  /** Time that `batch` requests take up at the given threshold. */
  function IntervalNs(statIntervalNs: nat, batch: nat, threshold: real): int
    requires threshold > 0.0
  {
    Ceil(batch as real / threshold * statIntervalNs as real)
  }

  predicate Admissible(batch: nat, threshold: real) {
    threshold > 0.0 && batch as real <= threshold
  }

  function DoCheck(c: Checker, batch: nat, threshold: real, now: int): (Checker, Verdict) {
    if batch == 0 then (c, Pass)
    else if !Admissible(batch, threshold) then (c, Block)
    else
      var interval := IntervalNs(c.statIntervalNs, batch, threshold);
      if c.lastPassed + interval <= now then (c.(lastPassed := now), Pass)
      else if c.lastPassed + interval - now > c.maxQueueingTimeNs then (c, Block)
      else (c.(lastPassed := c.lastPassed + interval), Wait(c.lastPassed + interval - now))
  }

  function PassTime(v: Verdict, now: int): int
    requires !v.Block?
  {
    if v.Wait? then now + v.ns else now
  }

  /** A request passes at the earliest time its interval after the last pass allows, and is blocked exactly when
      that would keep it waiting longer than the queueing limit. */
  lemma {:induction false} EarliestPass(c: Checker, batch: nat, threshold: real, now: int)
    requires batch > 0 && Admissible(batch, threshold)
    ensures var (c', v) := DoCheck(c, batch, threshold, now);
            var due := c.lastPassed + IntervalNs(c.statIntervalNs, batch, threshold);
            && (v.Block? <==> due > now + c.maxQueueingTimeNs)
            && (v.Block? ==> c' == c)
            && (!v.Block? ==> PassTime(v, now) == (if due <= now then now else due) == c'.lastPassed)
            && (v.Wait? ==> 0 < v.ns <= c.maxQueueingTimeNs)
  {
  }

  // ---------------------------------------------------------------- runs

  datatype Request = Request(batch: nat, threshold: real, now: int)

  datatype Grant = Grant(time: int, batch: nat, threshold: real, interval: int)

  datatype Schedule = Schedule(c: Checker, grants: seq<Grant>)

  /** One request; batches of 0 pass without taking up time. */
  function Serve(s: Schedule, r: Request): Schedule {
    var (c, v) := DoCheck(s.c, r.batch, r.threshold, r.now);
    if r.batch == 0 || v.Block? then Schedule(c, s.grants)
    else
      Schedule(c, s.grants + [Grant(PassTime(v, r.now), r.batch, r.threshold,
                                            IntervalNs(s.c.statIntervalNs, r.batch, r.threshold))])
  }

  function Run(s: Schedule, requests: seq<Request>): Schedule {
    if |requests| == 0 then s else Serve(Run(s, requests[..|requests| - 1]), requests[|requests| - 1])
  }

  ghost predicate Spaced(grants: seq<Grant>) {
    forall i :: 0 < i < |grants| ==> grants[i].time >= grants[i - 1].time + grants[i].interval
  }

  ghost predicate Inv(s: Schedule, c0: Checker) {
    && s.c == c0.(lastPassed := s.c.lastPassed)
    && Spaced(s.grants)
    && (|s.grants| > 0 ==> s.c.lastPassed == s.grants[|s.grants| - 1].time)
    && forall i :: 0 <= i < |s.grants| ==>
         s.grants[i].threshold > 0.0 &&
         s.grants[i].interval == IntervalNs(c0.statIntervalNs, s.grants[i].batch, s.grants[i].threshold)
  }

  lemma {:induction false} ServeKeepsInv(s: Schedule, c0: Checker, r: Request)
    requires Inv(s, c0)
    ensures Inv(Serve(s, r), c0)
  {
    if r.batch > 0 && Admissible(r.batch, r.threshold) {
      EarliestPass(s.c, r.batch, r.threshold, r.now);
    }
  }

  /** Over any run, with thresholds that may change and whatever the clock does, each granted pass time is at least
      its own interval after the one before. */
  lemma {:induction false} RunIsSpaced(c0: Checker, requests: seq<Request>)
    ensures Inv(Run(Schedule(c0, []), requests), c0)
  {
    if |requests| > 0 {
      RunIsSpaced(c0, requests[..|requests| - 1]);
      ServeKeepsInv(Run(Schedule(c0, []), requests[..|requests| - 1]), c0, requests[|requests| - 1]);
    }
  }

  function Batches(grants: seq<Grant>): nat {
    if |grants| == 0 then 0 else Batches(grants[..|grants| - 1]) + grants[|grants| - 1].batch
  }

  function Intervals(grants: seq<Grant>): int {
    if |grants| == 0 then 0 else Intervals(grants[..|grants| - 1]) + grants[|grants| - 1].interval
  }

  lemma {:induction false} SpacedIntervals(first: Grant, grants: seq<Grant>)
    requires Spaced([first] + grants)
    ensures Intervals(grants) <= (if |grants| == 0 then first.time else grants[|grants| - 1].time) - first.time
  {
    if |grants| > 0 {
      var init := grants[..|grants| - 1];
      var all := [first] + grants;
      assert [first] + init == all[..|grants|];
      assert all[|grants|].time >= all[|grants| - 1].time + all[|grants|].interval;
      SpacedIntervals(first, init);
    }
  }

  lemma {:induction false} MulLeft(t: real, a: real, b: real)
    requires t > 0.0 && a <= b
    ensures t * a <= t * b
  {
  }

  lemma {:induction false} Distribute(a: real, b: real, n: real)
    ensures (a + b) * n == a * n + b * n && n * (a + b) == n * a + n * b
  {
  }

  lemma {:induction false} CancelThreshold(b: real, threshold: real, n: real)
    requires threshold > 0.0
    ensures threshold * (b / threshold * n) == b * n
  {
    var q := b / threshold;
    assert threshold * q == b;
    assert threshold * (q * n) == (threshold * q) * n;
  }

  lemma {:induction false} MulOrder(t: real, a: real, b: real)
    requires t > 0.0
    ensures a <= b <==> t * a <= t * b
  {
    if a > b {
      assert t * (a - b) > 0.0;
    }
  }

  /** The interval of a batch is the shortest whole time in which the threshold allows it. */
  lemma {:induction false} IntervalIsLeast(statIntervalNs: nat, batch: nat, threshold: real, k: int)
    requires threshold > 0.0
    ensures IntervalNs(statIntervalNs, batch, threshold) <= k <==>
            batch as real * statIntervalNs as real <= threshold * k as real
  {
    var x := batch as real / threshold * statIntervalNs as real;
    CancelThreshold(batch as real, threshold, statIntervalNs as real);
    MulOrder(threshold, x, k as real);
    assert Ceil(x) <= k <==> x <= k as real;
  }

  lemma {:induction false} IntervalCovers(statIntervalNs: nat, batch: nat, threshold: real)
    requires threshold > 0.0
    ensures batch as real * statIntervalNs as real <= threshold * IntervalNs(statIntervalNs, batch, threshold) as real
  {
    IntervalIsLeast(statIntervalNs, batch, threshold, IntervalNs(statIntervalNs, batch, threshold));
  }

  /** Every verdict, without a division: a request is refused exactly if its batch is above the threshold, or more
      than the threshold allows until the end of the queueing time; it passes at once exactly if the threshold allows
      it by now. */
  lemma {:induction false} CheckIff(c: Checker, batch: nat, threshold: real, now: int, work: real)
    requires work == batch as real * c.statIntervalNs as real
    ensures batch == 0 ==> DoCheck(c, batch, threshold, now) == (c, Pass)
    ensures batch > 0 ==>
              (DoCheck(c, batch, threshold, now).1.Block? <==>
               || threshold <= 0.0 || batch as real > threshold
               || work > threshold * (now + c.maxQueueingTimeNs - c.lastPassed) as real)
    ensures batch > 0 ==>
              (DoCheck(c, batch, threshold, now).1.Pass? <==>
               threshold > 0.0 && batch as real <= threshold && work <= threshold * (now - c.lastPassed) as real)
  {
    if batch > 0 && threshold > 0.0 && batch as real <= threshold {
      EarliestPass(c, batch, threshold, now);
      IntervalIsLeast(c.statIntervalNs, batch, threshold, now + c.maxQueueingTimeNs - c.lastPassed);
      IntervalIsLeast(c.statIntervalNs, batch, threshold, now - c.lastPassed);
    }
  }

  lemma {:induction false} IntervalsCover(statIntervalNs: nat, grants: seq<Grant>, threshold: real)
    requires threshold > 0.0
    requires forall i :: 0 <= i < |grants| ==>
               grants[i].interval == IntervalNs(statIntervalNs, grants[i].batch, threshold)
    ensures Batches(grants) as real * statIntervalNs as real <= threshold * Intervals(grants) as real
  {
    if |grants| > 0 {
      var init, g := grants[..|grants| - 1], grants[|grants| - 1];
      IntervalsCover(statIntervalNs, init, threshold);
      IntervalCovers(statIntervalNs, g.batch, threshold);
      Distribute(Batches(init) as real, g.batch as real, statIntervalNs as real);
      Distribute(Intervals(init) as real, g.interval as real, threshold);
    }
  }

  /** The rate: at a constant threshold the batches after the first fit into the time they are spread over. */
  lemma {:induction false} RateBound(statIntervalNs: nat, grants: seq<Grant>, threshold: real)
    requires Spaced(grants) && |grants| > 0 && threshold > 0.0
    requires forall i :: 0 <= i < |grants| ==>
               grants[i].interval == IntervalNs(statIntervalNs, grants[i].batch, threshold)
    ensures Batches(grants[1..]) as real * statIntervalNs as real <=
            threshold * (grants[|grants| - 1].time - grants[0].time) as real
  {
    var rest := grants[1..];
    assert grants == [grants[0]] + rest;
    SpacedIntervals(grants[0], rest);
    IntervalsCover(statIntervalNs, rest, threshold);
    MulLeft(threshold, Intervals(rest) as real, (grants[|grants| - 1].time - grants[0].time) as real);
  }

  ghost predicate AllAt(grants: seq<Grant>, threshold: real) {
    forall i :: 0 <= i < |grants| ==> grants[i].threshold == threshold
  }

  lemma {:induction false} SameThreshold(c0: Checker, requests: seq<Request>, threshold: real)
    requires forall i :: 0 <= i < |requests| ==> requests[i].threshold == threshold
    ensures AllAt(Run(Schedule(c0, []), requests).grants, threshold)
  {
    if |requests| > 0 {
      var init, r := requests[..|requests| - 1], requests[|requests| - 1];
      assert forall i :: 0 <= i < |init| ==> init[i] == requests[i];
      SameThreshold(c0, init, threshold);
      ServeThreshold(Run(Schedule(c0, []), init), r, threshold);
    }
  }

  lemma {:induction false} ServeThreshold(s: Schedule, r: Request, threshold: real)
    requires AllAt(s.grants, threshold) && r.threshold == threshold
    ensures AllAt(Serve(s, r).grants, threshold)
  {
  }

  /** Rate bound of whole runs: with one threshold throughout, every run satisfies it. */
  lemma {:induction false} RunRateBound(c0: Checker, requests: seq<Request>, threshold: real, grants: seq<Grant>)
    requires threshold > 0.0 && forall i :: 0 <= i < |requests| ==> requests[i].threshold == threshold
    requires grants == Run(Schedule(c0, []), requests).grants && |grants| > 0
    ensures Batches(grants[1..]) as real * c0.statIntervalNs as real <=
            threshold * (grants[|grants| - 1].time - grants[0].time) as real
  {
    RunIsSpaced(c0, requests);
    SameThreshold(c0, requests, threshold);
    RateBoundOf(Run(Schedule(c0, []), requests), c0, threshold);
  }

  lemma {:induction false} RateBoundOf(s: Schedule, c0: Checker, threshold: real)
    requires Inv(s, c0) && AllAt(s.grants, threshold) && |s.grants| > 0 && threshold > 0.0
    ensures Batches(s.grants[1..]) as real * c0.statIntervalNs as real <=
            threshold * (s.grants[|s.grants| - 1].time - s.grants[0].time) as real
  {
    RateBound(c0.statIntervalNs, s.grants, threshold);
  }

  // ---------------------------------------------------------------- the checker

  class ThrottlingChecker {
    const maxQueueingTimeNs: nat
    const statIntervalNs: nat
    var lastPassedTime: int

    ghost function Model(): Checker
      reads this
    {
      Checker(maxQueueingTimeNs, statIntervalNs, lastPassedTime)
    }

    constructor (timeoutMs: nat, statIntervalMs: nat)
      ensures Model() == NewChecker(timeoutMs, statIntervalMs)
    {
      maxQueueingTimeNs := timeoutMs * NANOS_PER_MILLI;
      statIntervalNs := if statIntervalMs == 0 then 1000 * NANOS_PER_MILLI else statIntervalMs * NANOS_PER_MILLI;
      lastPassedTime := 0;
    }

    /** The source tests the queueing time a second time and rolls back; in one step that test never succeeds. */
    method Check(batchCount: nat, threshold: real, curNano: int) returns (verdict: Verdict)
      modifies this
      ensures (Model(), verdict) == DoCheck(old(Model()), batchCount, threshold, curNano)
    {
      if batchCount <= 0 {
        return Pass;
      }
      if threshold <= 0.0 {
        return Block;
      }
      if batchCount as real > threshold {
        return Block;
      }
      var intervalNs := IntervalNs(statIntervalNs, batchCount, threshold);
      var loadedLastPassedTime := lastPassedTime;
      var expectedTime := loadedLastPassedTime + intervalNs;
      if expectedTime <= curNano {
        lastPassedTime := curNano;
        return Pass;
      }
      var estimatedQueueingDuration := lastPassedTime + intervalNs - curNano;
      if estimatedQueueingDuration > maxQueueingTimeNs {
        return Block;
      }
      lastPassedTime := lastPassedTime + intervalNs;
      estimatedQueueingDuration := lastPassedTime - curNano;
      assert estimatedQueueingDuration <= maxQueueingTimeNs;
      return Wait(if estimatedQueueingDuration > 0 then estimatedQueueingDuration else 0);
    }
  }
}
