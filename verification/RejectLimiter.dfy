/** The Direct + Reject flow limiter on top of the metric array: what any run of entries can admit. */
module RejectLimiter {
  import opened Clock
  import opened LeapRing
  import opened MetricBuckets
  import opened SlidingWindow

  /** A request that is checked and recorded in one step, or any other statistic written to the same array. A refresh
      of the array is a write of an operation without effect. */
  datatype Event =
    | Request(now: Millis, batch: nat, othersAllow: bool)
    | Other(now: Millis, op: MetricOp)

  datatype Limiter = Limiter(view: View, threshold: real, ring: Ring<MetricBucket>, log: seq<Entry<MetricOp>>)

  /** Blocks when the window sum plus the batch exceeds the threshold. */
  predicate DoCheck(r: Ring<MetricBucket>, v: View, threshold: real, now: Millis, batch: nat)
    requires r.len > 0
  {
    !((ViewSum(r, v, now, PASS) + batch) as real > threshold)
  }

  /** The operation an event writes: a pass only when this check and every other slot let it through. */
  function Written(l: Limiter, e: Event): MetricOp
    requires l.ring.len > 0
  {
    match e
    case Request(now, batch, othersAllow) =>
      if DoCheck(l.ring, l.view, l.threshold, now, batch) && othersAllow then AddCount(PASS, batch)
      else AddCount(BLOCK, batch)
    case Other(now, op) => op
  }

  function Step(l: Limiter, e: Event): Limiter
    requires l.ring.len > 0 && |l.ring.slots| > 0
  {
    var op := Written(l, e);
    l.(ring := Record(l.ring, e.now, op, METRIC), log := l.log + [Entry(e.now, op)])
  }

  /** A run: a clock that does not go back from `last`, and no other source of pass counts. */
  predicate Legal(events: seq<Event>, last: nat) {
    && (forall i :: 0 <= i < |events| ==>
         last <= events[i].now && (events[i].Other? ==> Weight(PASS)(events[i].op) == 0))
    && (forall i, j :: 0 <= i < j < |events| ==> events[i].now <= events[j].now)
  }

  function Run(l: Limiter, events: seq<Event>): Limiter
    requires l.ring.len > 0 && |l.ring.slots| > 0
    decreases |events|
  {
    if |events| == 0 then l
    else
      var s := Step(l, events[0]);
      Run(s, events[1..])
  }

  /** Passes in the window of the view that ends with the bucket starting at `hi`. */
  ghost function Window(l: Limiter, hi: int): int
    requires l.ring.len > 0
  {
    Total(l.log, l.ring.len, hi - l.view.intervalInMs + l.ring.len, hi, Weight(PASS))
  }

  /** The array was created so long after time 0 that no window of the view starts before it. */
  predicate Settled(v: View, len: nat, born: nat)
    requires len > 0
  {
    v.intervalInMs <= Align(born, len) + len
  }

  /** The array is exact, the log holds no negative pass counts, and no window, past or future, exceeds the
      threshold. */
  ghost predicate Inv(l: Limiter, born: nat, last: nat) {
    && Represents(l.ring, l.log, born, last, 0, METRIC)
    && l.view.Over(l.ring)
    && Settled(l.view, l.ring.len, born)
    && l.threshold >= 0.0
    && (forall j :: 0 <= j < |l.log| ==> Weight(PASS)(l.log[j].op) >= 0)
    && (forall hi: int :: Window(l, hi) as real <= l.threshold)
  }

  /** With non-negative weights a wider range has a larger total; past `top` there is nothing to count. */
  lemma {:induction false} TotalWiden<E>(log: seq<Entry<E>>, len: nat, lo: int, hi: int, lo': int, hi': int, top: int,
                                         weight: E -> int)
    requires len > 0 && lo' <= lo && (hi <= hi' || top <= hi')
    requires forall j :: 0 <= j < |log| ==> weight(log[j].op) >= 0
    requires hi <= hi' || forall j :: 0 <= j < |log| ==> Align(log[j].time, len) <= top
    ensures Total(log, len, lo, hi, weight) <= Total(log, len, lo', hi', weight)
  {
    if |log| > 0 {
      var init := log[..|log| - 1];
      assert forall j :: 0 <= j < |init| ==> init[j] == log[j];
      TotalWiden(init, len, lo, hi, lo', hi', top, weight);
    }
  }

  lemma {:induction false} TotalAppend<E>(log: seq<Entry<E>>, e: Entry<E>, len: nat, lo: int, hi: int, weight: E -> int)
    requires len > 0
    ensures Total(log + [e], len, lo, hi, weight) ==
            Total(log, len, lo, hi, weight) + (if lo <= Align(e.time, len) <= hi then weight(e.op) else 0)
  {
    assert (log + [e])[..|log|] == log;
  }

  /** What an entry leaves behind: its batch as a pass if there is room in the window and the other slots allow it,
      and as a block otherwise, counted at the time of the entry. */
  lemma {:induction false} StepRecords(l: Limiter, born: nat, last: nat, now: Millis, batch: nat, othersAllow: bool)
    requires Inv(l, born, last) && last <= now && 0 < now
    ensures var fits := (WindowTotal(l.log, l.view, now, l.ring.len, PASS) + batch) as real <= l.threshold;
            Step(l, Request(now, batch, othersAllow)).log ==
            l.log + [Entry(now, AddCount(if fits && othersAllow then 0 else 1, batch))]
  {
    PassesIffRoom(l, born, last, now, batch);
  }

  /** The check refuses nothing it need not: it passes exactly when the passes logged in the window leave room. */
  lemma {:induction false} PassesIffRoom(l: Limiter, born: nat, last: nat, now: Millis, batch: nat)
    requires Inv(l, born, last) && last <= now && 0 < now
    ensures DoCheck(l.ring, l.view, l.threshold, now, batch) <==>
            (WindowTotal(l.log, l.view, now, l.ring.len, PASS) + batch) as real <= l.threshold
  {
    AlignMonotone(born, now, l.ring.len);
    ViewSumIsWindowTotal(l.ring, l.log, born, last, l.view, now, PASS);
  }

  /** A request that passes the check fits into every window it falls into. */
  lemma {:induction false} PassFits(l: Limiter, born: nat, last: nat, now: Millis, batch: nat, hi: int)
    requires Inv(l, born, last) && last <= now && 0 < now
    requires DoCheck(l.ring, l.view, l.threshold, now, batch) && Align(now, l.ring.len) <= hi
    ensures (Window(l, hi) + batch) as real <= l.threshold
  {
    var len, a := l.ring.len, Align(now, l.ring.len);
    AlignMonotone(born, now, len);
    ViewSumIsWindowTotal(l.ring, l.log, born, last, l.view, now, PASS);
    forall j | 0 <= j < |l.log|
      ensures Align(l.log[j].time, len) <= a
    {
      AlignMonotone(l.log[j].time, now, len);
    }
    TotalWiden(l.log, len, hi - l.view.intervalInMs + len, hi, a - l.view.intervalInMs + len, a, a, Weight(PASS));
  }

  lemma {:induction false} StepKeepsWindow(l: Limiter, born: nat, last: nat, e: Event, hi: int)
    requires Inv(l, born, last) && last <= e.now && 0 < e.now
    requires e.Other? ==> Weight(PASS)(e.op) == 0
    ensures Total(l.log + [Entry(e.now, Written(l, e))], l.ring.len,
                  hi - l.view.intervalInMs + l.ring.len, hi, Weight(PASS)) as real <= l.threshold
  {
    var op := Written(l, e);
    TotalAppend(l.log, Entry(e.now, op), l.ring.len, hi - l.view.intervalInMs + l.ring.len, hi, Weight(PASS));
    assert Window(l, hi) as real <= l.threshold;
    if op.AddCount? && op.event == PASS && e.Request? && Align(e.now, l.ring.len) <= hi {
      PassFits(l, born, last, e.now, e.batch, hi);
    }
  }

  lemma {:induction false} StepKeepsInv(l: Limiter, born: nat, last: nat, e: Event)
    requires Inv(l, born, last) && last <= e.now && 0 < e.now
    requires e.Other? ==> Weight(PASS)(e.op) == 0
    ensures Inv(Step(l, e), born, e.now)
  {
    var op := Written(l, e);
    RecordRepresents(l.ring, l.log, born, last, 0, METRIC, e.now, op);
    var l' := Step(l, e);
    assert l'.view.Over(l'.ring);
    assert Weight(PASS)(op) >= 0;
    forall hi: int
      ensures Window(l', hi) as real <= l.threshold
    {
      StepKeepsWindow(l, born, last, e, hi);
    }
  }

  /** A new limiter over a new array. */
  function NewLimiter(v: View, threshold: real, n: nat, len: nat, born: Millis): Limiter
    requires n > 0 && len > 0
  {
    Limiter(v, threshold, NewRing(n, len, born, NEW_BUCKET), [])
  }

  /** Clock reading of the last event. */
  function ClockAfter(events: seq<Event>, last: nat): nat {
    if |events| == 0 then last else events[|events| - 1].now
  }

  /** In every run no window of the rule ever holds more passes than the threshold. */
  lemma {:induction false} RunKeepsInv(l: Limiter, born: nat, last: nat, events: seq<Event>)
    requires Inv(l, born, last) && Legal(events, last) && 0 < born
    ensures Inv(Run(l, events), born, ClockAfter(events, last))
    decreases |events|
  {
    if |events| > 0 {
      StepKeepsInv(l, born, last, events[0]);
      RunKeepsInv(Step(l, events[0]), born, events[0].now, events[1..]);
    }
  }

  lemma {:induction false} NewLimiterInv(v: View, threshold: real, n: nat, len: nat, born: Millis)
    requires Config(len, n * len, n) && threshold >= 0.0
    requires v.Over(NewRing(n, len, born, NEW_BUCKET)) && Settled(v, len, born)
    ensures Inv(NewLimiter(v, threshold, n, len, born), born, born)
  {
    NewRepresents(n, len, born, METRIC);
  }

  // ---------------------------------------------------------------- exactly when the threshold holds

  /** No window, past or future, exceeds the threshold. */
  ghost predicate Bounded(l: Limiter)
    requires l.ring.len > 0
  {
    forall hi: int :: Window(l, hi) as real <= l.threshold
  }

  ghost predicate AlwaysBounded(l: Limiter, born: nat)
    requires l.ring.len > 0 && |l.ring.slots| > 0
  {
    forall events :: Legal(events, born) ==> BoundedAfter(l, events)
  }

  ghost predicate BoundedAfter(l: Limiter, events: seq<Event>)
    requires l.ring.len > 0 && |l.ring.slots| > 0
  {
    Run(l, events).ring.len > 0 && Bounded(Run(l, events))
  }

  /** A limiter that has passed nothing but empty batches. */
  ghost predicate Idle(l: Limiter, born: nat, last: nat) {
    && Represents(l.ring, l.log, born, last, 0, METRIC)
    && l.view.Over(l.ring)
    && 0.0 <= l.threshold < 1.0
    && forall j :: 0 <= j < |l.log| ==> Weight(PASS)(l.log[j].op) == 0
  }

  lemma {:induction false} NothingCounted(log: seq<Entry<MetricOp>>, len: nat, lo: int, hi: int)
    requires len > 0 && forall j :: 0 <= j < |log| ==> Weight(PASS)(log[j].op) == 0
    ensures Total(log, len, lo, hi, Weight(PASS)) == 0
  {
    if |log| > 0 {
      var init := log[..|log| - 1];
      assert forall j :: 0 <= j < |init| ==> init[j] == log[j];
      NothingCounted(init, len, lo, hi);
    }
  }

  lemma {:induction false} StepStaysIdle(l: Limiter, born: nat, last: nat, e: Event)
    requires Idle(l, born, last) && last <= e.now && 0 < e.now
    requires e.Other? ==> Weight(PASS)(e.op) == 0
    ensures Idle(Step(l, e), born, e.now)
  {
    var op := Written(l, e);
    ViewSumIsWindowTotal(l.ring, l.log, born, last, l.view, e.now, PASS);
    NothingCounted(l.log, l.ring.len, Align(e.now, l.ring.len) - l.view.intervalInMs + l.ring.len,
                   Align(e.now, l.ring.len));
    assert ViewSum(l.ring, l.view, e.now, PASS) == 0;
    assert Weight(PASS)(op) == 0;
    RecordRepresents(l.ring, l.log, born, last, 0, METRIC, e.now, op);
    OverSameShape(l.view, l.ring, Step(l, e).ring);
  }

  lemma {:induction false} RunStaysIdle(l: Limiter, born: nat, last: nat, events: seq<Event>)
    requires Idle(l, born, last) && Legal(events, last) && 0 < born
    ensures Idle(Run(l, events), born, ClockAfter(events, last))
    decreases |events|
  {
    if |events| > 0 {
      StepStaysIdle(l, born, last, events[0]);
      RunStaysIdle(Step(l, events[0]), born, events[0].now, events[1..]);
    }
  }

  lemma {:induction false} IdleIsBounded(l: Limiter, born: nat, last: nat)
    requires Idle(l, born, last)
    ensures Bounded(l)
  {
    forall hi: int
      ensures Window(l, hi) as real <= l.threshold
    {
      NothingCounted(l.log, l.ring.len, hi - l.view.intervalInMs + l.ring.len, hi);
    }
  }

  /** Within one interval of time 0 the view reads 0, and any batch within the threshold passes. */
  lemma {:induction false} EarlyPasses(l: Limiter, born: nat, now: Millis, k: nat)
    requires Represents(l.ring, l.log, born, now, 0, METRIC) && l.view.Over(l.ring) && 0 < now
    requires l.view.intervalInMs > Align(now, l.ring.len) + l.ring.len && k as real <= l.threshold
    ensures var l' := Step(l, Request(now, k, true));
            && l'.log == l.log + [Entry(now, AddCount(PASS, k))]
            && Represents(l'.ring, l'.log, born, now, 0, METRIC) && l'.view.Over(l'.ring)
            && l'.view == l.view && l'.threshold == l.threshold && l'.ring.len == l.ring.len
  {
    ViewSumIsWindowTotal(l.ring, l.log, born, now, l.view, now, PASS);
    AlignFacts(now, l.ring.len);
    RecordRepresents(l.ring, l.log, born, now, 0, METRIC, now, AddCount(PASS, k));
    OverSameShape(l.view, l.ring, Step(l, Request(now, k, true)).ring);
  }

  lemma {:induction false} TwiceInOneWindow(l: Limiter, now: nat, k: nat)
    requires l.ring.len > 0 && l.view.intervalInMs >= l.ring.len
    requires l.log == [] + [Entry(now, AddCount(PASS, k))] + [Entry(now, AddCount(PASS, k))]
    ensures Window(l, Align(now, l.ring.len)) == 2 * k
  {
    var e, len, hi := Entry(now, AddCount(PASS, k)), l.ring.len, Align(now, l.ring.len);
    TotalAppend([], e, len, hi - l.view.intervalInMs + len, hi, Weight(PASS));
    TotalAppend([] + [e], e, len, hi - l.view.intervalInMs + len, hi, Weight(PASS));
  }

  /** The failing input: two full batches at the time of creation. */
  lemma {:induction false} EarlyBreaks(l: Limiter, born: Millis, k: nat)
    requires Represents(l.ring, l.log, born, born, 0, METRIC) && l.log == [] && l.view.Over(l.ring) && 0 < born
    requires l.view.intervalInMs > Align(born, l.ring.len) + l.ring.len
    requires 1 <= k && k as real <= l.threshold < (k + 1) as real
    ensures Legal([Request(born, k, true), Request(born, k, true)], born)
    ensures !BoundedAfter(l, [Request(born, k, true), Request(born, k, true)])
  {
    var e := Request(born, k, true);
    EarlyPasses(l, born, born, k);
    EarlyPasses(Step(l, e), born, born, k);
    RunTwo(l, e, e);
    AlignFacts(born, l.ring.len);
    TwiceInOneWindow(Run(l, [e, e]), born, k);
  }

  /** Exactly when: every run of a new limiter keeps every window within the threshold if and only if its array was
      created late enough after time 0, or the threshold lets nothing through anyway. */
  lemma {:induction false} BoundedIffSettled(v: View, threshold: real, n: nat, len: nat, born: Millis)
    requires Config(len, n * len, n) && threshold >= 0.0 && 0 < born
    requires v.Over(NewRing(n, len, born, NEW_BUCKET))
    ensures AlwaysBounded(NewLimiter(v, threshold, n, len, born), born) <==> Settled(v, len, born) || threshold < 1.0
  {
    var l := NewLimiter(v, threshold, n, len, born);
    NewRepresents(n, len, born, METRIC);
    if Settled(v, len, born) || threshold < 1.0 {
      forall events | Legal(events, born)
        ensures BoundedAfter(l, events)
      {
        BoundedRun(l, born, events);
      }
    } else {
      var e := Request(born, threshold.Floor, true);
      EarlyBreaks(l, born, threshold.Floor);
      assert !BoundedAfter(l, [e, e]);
    }
  }

  lemma {:induction false} BoundedRun(l: Limiter, born: Millis, events: seq<Event>)
    requires Represents(l.ring, l.log, born, born, 0, METRIC) && l.log == [] && l.view.Over(l.ring) && 0 < born
    requires l.threshold >= 0.0 && Legal(events, born)
    requires Settled(l.view, l.ring.len, born) || l.threshold < 1.0
    ensures BoundedAfter(l, events)
  {
    if l.threshold < 1.0 {
      RunStaysIdle(l, born, born, events);
      IdleIsBounded(Run(l, events), born, ClockAfter(events, born));
    } else {
      assert Inv(l, born, born);
      RunKeepsInv(l, born, born, events);
    }
  }

  // ---------------------------------------------------------------- real time spans

  /** Batches passed at times `from..to`, both ends included. */
  ghost function PassedBetween(log: seq<Entry<MetricOp>>, from: nat, to: nat): int {
    if |log| == 0 then 0
    else
      var e := log[|log| - 1];
      PassedBetween(log[..|log| - 1], from, to) + (if from <= e.time <= to then Weight(PASS)(e.op) else 0)
  }

  lemma {:induction false} SpanInBuckets(log: seq<Entry<MetricOp>>, len: nat, from: nat, to: nat)
    requires len > 0
    requires forall j :: 0 <= j < |log| ==> Weight(PASS)(log[j].op) >= 0
    ensures PassedBetween(log, from, to) <= Total(log, len, Align(from, len), Align(to, len), Weight(PASS))
  {
    if |log| > 0 {
      var init, t := log[..|log| - 1], log[|log| - 1].time;
      assert forall j :: 0 <= j < |init| ==> init[j] == log[j];
      SpanInBuckets(init, len, from, to);
      if from <= t <= to {
        AlignMonotone(from, t, len);
        AlignMonotone(t, to, len);
      }
    }
  }

  /** Over every run of a new limiter, any time span no longer than the interval less one bucket holds at most
      `threshold` passes, and any span no longer than the interval at most twice that. */
  lemma {:induction false} SpanBound(v: View, threshold: real, n: nat, len: nat, born: Millis, events: seq<Event>,
                                     from: nat, to: nat)
    requires Config(len, n * len, n) && threshold >= 0.0
    requires v.Over(NewRing(n, len, born, NEW_BUCKET)) && Settled(v, len, born) && 0 < born
    requires Legal(events, born)
    ensures var log := Run(NewLimiter(v, threshold, n, len, born), events).log;
            && (to <= from + v.intervalInMs - len ==> PassedBetween(log, from, to) as real <= threshold)
            && (to <= from + v.intervalInMs ==> PassedBetween(log, from, to) as real <= 2.0 * threshold)
  {
    var l0 := NewLimiter(v, threshold, n, len, born);
    NewLimiterInv(v, threshold, n, len, born);
    RunKeepsInv(l0, born, born, events);
    var l := Run(l0, events);
    RunKeepsShape(l0, events);
    SpanBoundOf(l, born, ClockAfter(events, born), from, to);
  }

  lemma {:induction false} RunKeepsShape(l: Limiter, events: seq<Event>)
    requires l.ring.len > 0 && |l.ring.slots| > 0
    ensures Run(l, events).view == l.view && Run(l, events).threshold == l.threshold
    ensures Run(l, events).ring.len == l.ring.len
    decreases |events|
  {
    if |events| > 0 {
      RunKeepsShape(Step(l, events[0]), events[1..]);
    }
  }

  lemma {:induction false} SpanBoundOf(l: Limiter, born: nat, last: nat, from: nat, to: nat)
    requires Inv(l, born, last)
    ensures to <= from + l.view.intervalInMs - l.ring.len ==> PassedBetween(l.log, from, to) as real <= l.threshold
    ensures to <= from + l.view.intervalInMs ==> PassedBetween(l.log, from, to) as real <= 2.0 * l.threshold
  {
    var len, span, lo := l.ring.len, l.view.intervalInMs, Align(from, l.ring.len);
    ViewAligned(l.view, l.ring);
    AlignFacts(from, len);
    assert Window(l, lo + span - len) as real <= l.threshold && Window(l, lo + span) as real <= l.threshold;
    SpanBuckets(l.log, len, span, from, to);
  }

  lemma {:induction false} SpanBuckets(log: seq<Entry<MetricOp>>, len: nat, span: nat, from: nat, to: nat)
    requires len > 0 && span >= len && span % len == 0 && (span - len) % len == 0
    requires forall j :: 0 <= j < |log| ==> Weight(PASS)(log[j].op) >= 0
    ensures var lo := Align(from, len);
            && (to <= from + span - len ==>
                PassedBetween(log, from, to) <= Total(log, len, lo, lo + span - len, Weight(PASS)))
            && (to <= from + span ==>
                  PassedBetween(log, from, to) <=
                  Total(log, len, lo, lo + span - len, Weight(PASS)) +
                  Total(log, len, lo + len, lo + span, Weight(PASS)))
  {
    var lo := Align(from, len);
    AlignFacts(from, len);
    SpanInBuckets(log, len, from, to);
    if to <= from + span - len {
      AlignShift(from, span - len, len);
      AlignMonotone(to, from + span - len, len);
      TotalWiden(log, len, lo, Align(to, len), lo, lo + span - len, 0, Weight(PASS));
    }
    if to <= from + span {
      AlignShift(from, span, len);
      AlignMonotone(to, from + span, len);
      TwoWindows(log, len, lo, Align(to, len), lo + span - len, lo + span, Weight(PASS));
    }
  }

  /** A range that starts on the grid is covered by any range from its first bucket and one from its second. */
  lemma {:induction false} TwoWindows<E>(log: seq<Entry<E>>, len: nat, lo: nat, hi: int, mid: int, top: int,
                                         weight: E -> int)
    requires len > 0 && lo % len == 0 && lo <= mid && hi <= top
    requires forall j :: 0 <= j < |log| ==> weight(log[j].op) >= 0
    ensures Total(log, len, lo, hi, weight) <= Total(log, len, lo, mid, weight) + Total(log, len, lo + len, top, weight)
  {
    if |log| > 0 {
      var init, t := log[..|log| - 1], log[|log| - 1].time;
      assert forall j :: 0 <= j < |init| ==> init[j] == log[j];
      TwoWindows(init, len, lo, hi, mid, top, weight);
      if lo <= Align(t, len) {
        AlignFacts(t, len);
        AlignMonotone(lo, t, len);
      }
    }
  }

  /** The interval of an accepted view is a whole number of array buckets. */
  lemma {:induction false} ViewAligned<V>(v: View, r: Ring<V>)
    requires v.Over(r)
    ensures v.intervalInMs % r.len == 0 && (v.intervalInMs - r.len) % r.len == 0 && v.intervalInMs >= r.len
  {
    AcceptedShape(v, r);
    ExactQuotient(v.intervalInMs, v.sampleCount);
    ExactQuotient(v.BucketLength(), r.len);
    var k := v.sampleCount * (v.BucketLength() / r.len);
    assert v.intervalInMs == k * r.len + 0;
    DivUnique(k, r.len, 0);
    AlignShift(v.intervalInMs - r.len, r.len, r.len);
  }

  /** A request whose window holds nothing passes when its batch is within the threshold. */
  lemma {:induction false} EmptyWindowPasses(l: Limiter, born: nat, last: nat, now: Millis, batch: nat)
    requires Inv(l, born, last) && last <= now && 0 < now && batch as real <= l.threshold
    requires WindowTotal(l.log, l.view, now, l.ring.len, PASS) == 0
    ensures Step(l, Request(now, batch, true)).log == l.log + [Entry(now, AddCount(PASS, batch))]
  {
    AlignMonotone(born, now, l.ring.len);
    ViewSumIsWindowTotal(l.ring, l.log, born, last, l.view, now, PASS);
  }

  /** The first bound is tight: one millisecond more and a span can hold twice the threshold. A full batch passes
      in the last millisecond of one bucket, and another at the start of the bucket one interval later. */
  lemma {:induction false} SpanBoundTight(l: Limiter, born: nat, k: nat, end: Millis, next: Millis)
    requires Inv(l, born, born) && l.log == [] && l.threshold == k as real && 0 < born
    requires born % l.ring.len == 0 && end == born + l.ring.len - 1 && next == born + l.view.intervalInMs
    ensures Legal([Request(end, k, true), Request(next, k, true)], born)
    ensures PassedBetween(Run(l, [Request(end, k, true), Request(next, k, true)]).log, end, next) == 2 * k
    ensures next == end + (l.view.intervalInMs - l.ring.len) + 1
  {
    var first, second := Request(end, k, true), Request(next, k, true);
    ViewAligned(l.view, l.ring);
    EmptyWindowPasses(l, born, born, end, k);
    StepKeepsInv(l, born, born, first);
    var l1 := Step(l, first);
    SecondWindowEmpty(l1.log, l.view, born, l.ring.len, end, next, k);
    EmptyWindowPasses(l1, born, end, next, k);
    TwoPasses(end, next, k);
    RunTwo(l, first, second);
  }

  lemma {:induction false} SecondWindowEmpty(log: seq<Entry<MetricOp>>, v: View, born: nat, len: nat, end: nat,
                                             next: nat, k: nat)
    requires len > 0 && born % len == 0 && end == born + len - 1 && next == born + v.intervalInMs
    requires v.intervalInMs % len == 0
    requires log == [] + [Entry(end, AddCount(PASS, k))]
    ensures WindowTotal(log, v, next, len, PASS) == 0
  {
    AlignFacts(born, len);
    DivUnique(born / len, len, len - 1);
    assert Align(end, len) == born;
    AlignShift(born, v.intervalInMs, len);
    TotalAppend([], Entry(end, AddCount(PASS, k)), len, Align(next, len) - v.intervalInMs + len, Align(next, len),
                Weight(PASS));
  }

  lemma {:induction false} RunTwo(l: Limiter, a: Event, b: Event)
    requires l.ring.len > 0 && |l.ring.slots| > 0
    ensures Run(l, [a, b]) == Step(Step(l, a), b)
  {
    var l1 := Step(l, a);
    assert Run(l1, [b]) == Step(l1, b) by {
      assert [b][1..] == [];
    }
    assert [a, b][1..] == [b];
  }

  lemma {:induction false} TwoPasses(from: nat, to: nat, k: nat)
    requires from <= to
    ensures PassedBetween([] + [Entry(from, AddCount(PASS, k))] + [Entry(to, AddCount(PASS, k))], from, to) == 2 * k
  {
    var one := [Entry(from, AddCount(PASS, k))];
    var two := [] + one + [Entry(to, AddCount(PASS, k))];
    assert one[..0] == [] && two[..1] == one;
    assert PassedBetween(one, from, to) == k;
  }
}
