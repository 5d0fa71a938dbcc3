/** The circuit breaker as a value: three states, a retry deadline, a probe counter and windowed counters. */
module Breakers {
  import opened Clock
  import opened LeapRing

  datatype BreakerState = Closed | HalfOpen | Open

  datatype Strategy = SlowRequestRatio | ErrorRatio | ErrorCount | Custom(id: nat)

  datatype Rule = Rule(id: string, resource: string, strategy: Strategy, retryTimeoutMs: nat, minRequestAmount: nat,
                       statIntervalMs: nat, statSlidingWindowBucketCount: nat,
                       maxAllowedRtMs: nat, threshold: real, probeNum: nat)

  /** What rule loading accepts of the fields the breaker uses. */
  predicate ValidRule(r: Rule) {
    && 0 < r.statIntervalMs < U32
    && 0 < r.retryTimeoutMs < U32
    && r.threshold >= 0.0
    && !r.strategy.Custom?
  }

  function BucketCount(r: Rule): (n: nat)
    ensures n > 0 && (r.statIntervalMs % n == 0)
  {
    if r.statSlidingWindowBucketCount == 0 || r.statIntervalMs % r.statSlidingWindowBucketCount != 0 then 1
    else r.statSlidingWindowBucketCount
  }

  // ---------------------------------------------------------------- counters

  /** Slow or failed requests, and all requests. */
  datatype Counter = Counter(bad: nat, total: nat)

  function Count(c: Counter, bad: bool): Counter {
    Counter(if bad then c.bad + 1 else c.bad, c.total + 1)
  }

  const ZERO := Counter(0, 0)
  const COUNTERS: Payload<Counter, bool> := Payload(ZERO, Count)

  function ReadBad(): Counter -> int {
    (c: Counter) => c.bad
  }

  function ReadTotal(): Counter -> int {
    (c: Counter) => c.total
  }

  function IsBad(): bool -> int {
    (bad: bool) => if bad then 1 else 0
  }

  function IsRequest(): bool -> int {
    (bad: bool) => 1
  }

  lemma {:induction false} CountersAdd()
    ensures Additive(COUNTERS, ReadBad(), IsBad()) && Additive(COUNTERS, ReadTotal(), IsRequest())
  {
    forall c: Counter, bad: bool
      ensures COUNTERS.apply(c, bad) == Count(c, bad)
    {
    }
    assert forall c: Counter, bad: bool :: ReadBad()(COUNTERS.apply(c, bad)) == ReadBad()(c) + IsBad()(bad);
    assert forall c: Counter, bad: bool :: ReadTotal()(COUNTERS.apply(c, bad)) == ReadTotal()(c) + IsRequest()(bad);
  }

  // ---------------------------------------------------------------- the breaker

  datatype Edge = Edge(from: BreakerState, to: BreakerState)

  /** `events` is what the state change listeners have been told so far. */
  datatype Breaker = Breaker(rule: Rule, state: BreakerState, nextRetry: nat, curProbe: nat,
                             stat: Ring<Counter>, events: seq<Edge>)

  predicate WellFormed(b: Breaker) {
    b.stat.len > 0 && |b.stat.slots| > 0
  }

  function NewBreaker(rule: Rule, now: nat): Breaker
    requires ValidRule(rule)
  {
    ExactQuotient(rule.statIntervalMs, BucketCount(rule));
    Breaker(rule, Closed, 0, 0, NewRing(BucketCount(rule), rule.statIntervalMs / BucketCount(rule), now, ZERO), [])
  }

  function FromClosedToOpen(b: Breaker, now: nat): Breaker {
    if b.state == Closed then
      b.(state := Open, nextRetry := now + b.rule.retryTimeoutMs, events := b.events + [Edge(Closed, Open)])
    else b
  }

  function FromOpenToHalfOpen(b: Breaker): Breaker {
    if b.state == Open then b.(state := HalfOpen, events := b.events + [Edge(Open, HalfOpen)]) else b
  }

  function FromHalfOpenToOpen(b: Breaker, now: nat): Breaker {
    if b.state == HalfOpen then
      b.(state := Open, curProbe := 0, nextRetry := now + b.rule.retryTimeoutMs,
         events := b.events + [Edge(HalfOpen, Open)])
    else b
  }

  function FromHalfOpenToClosed(b: Breaker): Breaker {
    if b.state == HalfOpen then b.(state := Closed, curProbe := 0, events := b.events + [Edge(HalfOpen, Closed)]) else b
  }

  /** The exit hook of a blocked probe: back to Open, leaving the probe counter and the deadline as they are. */
  function Rollback(b: Breaker): Breaker {
    if b.state == HalfOpen then b.(state := Open, events := b.events + [Edge(HalfOpen, Open)]) else b
  }

  /** Whether a request may pass; the first one after the deadline turns an open breaker half-open. */
  function TryPass(b: Breaker, now: nat): (Breaker, bool) {
    match b.state
    case Closed => (b, true)
    case Open => if now >= b.nextRetry then (FromOpenToHalfOpen(b), true) else (b, false)
    case HalfOpen => (b, b.rule.probeNum > 0)
  }

  predicate Bad(r: Rule, rt: nat, err: bool) {
    if r.strategy == SlowRequestRatio then rt > r.maxAllowedRtMs else err
  }

  const PRECISION := 0.00000001

  predicate Float64Equals(x: real, y: real) {
    -PRECISION < x - y < PRECISION
  }

  /** The threshold test. Without requests the ratio is not a number and compares false. */
  predicate Exceeds(r: Rule, bad: int, total: int) {
    if r.strategy == ErrorCount then bad >= r.threshold.Floor
    else total != 0 &&
         (var ratio := bad as real / total as real; ratio > r.threshold || Float64Equals(ratio, r.threshold))
  }

  function WindowCounts(s: Ring<Counter>, now: nat): (int, int) {
    var values := Values(s.slots, now, s.interval, Always());
    (SumOf(values, ReadBad()), SumOf(values, ReadTotal()))
  }

  /** A finished request: counted, then judged by the state the breaker is in. */
  function OnRequestComplete(b: Breaker, now: nat, rt: nat, err: bool): Breaker
    requires WellFormed(b)
  {
    if Touch(b.stat, now, ZERO).None? then b
    else
      var bad := Bad(b.rule, rt, err);
      var counted := b.(stat := Record(b.stat, now, bad, COUNTERS));
      match b.state
      case Open => counted
      case HalfOpen =>
        if bad then FromHalfOpenToOpen(counted, now)
        else
          var probed := counted.(curProbe := counted.curProbe + 1);
          if b.rule.probeNum == 0 || probed.curProbe >= b.rule.probeNum then
            FromHalfOpenToClosed(probed).(stat := Clear(probed.stat, now, ZERO))
          else probed
      case Closed =>
        var (badCount, totalCount) := WindowCounts(counted.stat, now);
        if totalCount < b.rule.minRequestAmount then counted
        else if Exceeds(b.rule, badCount, totalCount) then FromClosedToOpen(counted, now)
        else counted
  }

  // ---------------------------------------------------------------- runs of one breaker

  datatype Op = Try(now: Millis) | Complete(now: Millis, rt: nat, err: bool) | Hook(now: Millis)

  function Apply(b: Breaker, op: Op): (b': Breaker)
    requires WellFormed(b)
    ensures WellFormed(b') && b'.rule == b.rule && b'.stat.len == b.stat.len && b'.stat.interval == b.stat.interval
  {
    match op
    case Try(now) => TryPass(b, now).0
    case Complete(now, rt, err) => OnRequestComplete(b, now, rt, err)
    case Hook(now) => Rollback(b)
  }

  /** A breaker with what an observer of its state changes remembers: the completions since the breaker last closed
      from half-open, and the half-open successes since it last left half-open through a completion. */
  datatype Observed = Observed(b: Breaker, log: seq<Entry<bool>>, successes: nat)

  function Observe(o: Observed, op: Op): Observed
    requires WellFormed(o.b)
  {
    var b' := Apply(o.b, op);
    var log := if op.Complete? then
                   if o.b.state == HalfOpen && b'.state == Closed then []
                   else o.log + [Entry(op.now, Bad(o.b.rule, op.rt, op.err))]
                 else o.log;
    var successes := if op.Complete? && o.b.state == HalfOpen then
                       if b'.state == HalfOpen then o.successes + 1 else 0
                     else o.successes;
    Observed(b', log, successes)
  }

  /** The number of half-open successes that closes the breaker. */
  function Needed(r: Rule): nat {
    if r.probeNum == 0 then 1 else r.probeNum
  }

  /** The events lead from `start` to `end` over legal edges only. */
  predicate Path(events: seq<Edge>, start: BreakerState, end: BreakerState) {
    if |events| == 0 then start == end
    else
      var e := events[|events| - 1];
      e in LEGAL && e.to == end && Path(events[..|events| - 1], start, e.from)
  }

  const LEGAL: set<Edge> := {Edge(Closed, Open), Edge(Open, HalfOpen), Edge(HalfOpen, Open), Edge(HalfOpen, Closed)}

  ghost predicate Inv(o: Observed, born: nat, last: nat, floor: int) {
    && Represents(o.b.stat, o.log, born, last, floor, COUNTERS)
    && (floor <= 0 || floor <= last - o.b.stat.interval)
    && o.b.curProbe == o.successes < Needed(o.b.rule)
    && Path(o.b.events, Closed, o.b.state)
  }

  /** Where the representation starts to be exact after one more operation. */
  function NextFloor(o: Observed, op: Op, floor: int): int
    requires WellFormed(o.b)
  {
    if op.Complete? && o.b.state == HalfOpen && Apply(o.b, op).state == Closed then op.now - o.b.stat.interval
    else floor
  }

  lemma {:induction false} PathNext(events: seq<Edge>, start: BreakerState, mid: BreakerState, e: Edge)
    requires Path(events, start, mid) && e.from == mid && e in LEGAL
    ensures Path(events + [e], start, e.to)
  {
    assert (events + [e])[..|events|] == events;
  }

  /** A legal step of the listener trace: nothing, or one legal edge from the old state to the new one. */
  lemma {:induction false} StepPath(b: Breaker, op: Op)
    requires WellFormed(b) && Path(b.events, Closed, b.state)
    ensures Path(Apply(b, op).events, Closed, Apply(b, op).state)
  {
    var b' := Apply(b, op);
    if b'.state != b.state {
      PathNext(b.events, Closed, b.state, Edge(b.state, b'.state));
    }
  }
}
