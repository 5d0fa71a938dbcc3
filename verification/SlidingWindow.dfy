/** Views over the metric array: which buckets a view of a coarser shape reads, and what the sums mean. */
module SlidingWindow {
  import opened Clock
  import opened LeapRing
  import opened MetricBuckets
  import opened Options

  datatype StatisticError = IllegalStatisticParams | IllegalGlobalStatisticParams | GlobalStatisticNonReusable

  /** Whether a view of the given shape can be built over an array of the given shape; `None` is acceptance. */
  function CheckValidityForReuseStatistic(sampleCount: nat, intervalInMs: nat, parentSampleCount: nat,
                                          parentIntervalInMs: nat): Option<StatisticError> {
    if intervalInMs == 0 || sampleCount == 0 || intervalInMs % sampleCount != 0 then Some(IllegalStatisticParams)
    else if parentIntervalInMs == 0 || parentSampleCount == 0 || parentIntervalInMs % parentSampleCount != 0 then
      Some(IllegalGlobalStatisticParams)
    else
      var bucketLengthInMs := intervalInMs / sampleCount;
      var parentBucketLengthInMs := parentIntervalInMs / parentSampleCount;
      ExactQuotient(parentIntervalInMs, parentSampleCount);
      if parentIntervalInMs % intervalInMs != 0 then Some(GlobalStatisticNonReusable)
      else if bucketLengthInMs % parentBucketLengthInMs != 0 then Some(GlobalStatisticNonReusable)
      else None
  }

  /** A view that passed the check over an array with buckets of `len` and time span `interval`. */
  datatype View = View(sampleCount: nat, intervalInMs: nat) {
    function BucketLength(): nat
      requires sampleCount > 0
    {
      intervalInMs / sampleCount
    }

    predicate Over<V>(r: Ring<V>) {
      && Sized(r)
      && CheckValidityForReuseStatistic(sampleCount, intervalInMs, |r.slots|, r.interval).None?
    }
  }

  /** An accepted view is made of whole buckets of the array, and spans the whole array or at most half of it. */
  lemma {:induction false} AcceptedShape<V>(v: View, r: Ring<V>)
    requires v.Over(r)
    ensures r.len <= v.BucketLength() <= v.intervalInMs <= r.interval
    ensures v.BucketLength() % r.len == 0
    ensures v.intervalInMs < r.interval ==> 2 * v.intervalInMs <= r.interval
  {
    assert r.interval / |r.slots| == r.len by {
      DivUnique(r.len, |r.slots|, 0);
    }
    Divisor(v.intervalInMs, v.sampleCount);
    Multiple(v.BucketLength(), r.len);
    Multiple(r.interval, v.intervalInMs);
  }

  /** The buckets of an accepted view fill its interval exactly. */
  lemma {:induction false} WholeBuckets<V>(v: View, r: Ring<V>)
    requires v.Over(r)
    ensures v.sampleCount * v.BucketLength() == v.intervalInMs
  {
    ExactQuotient(v.intervalInMs, v.sampleCount);
  }

  /** Witnesses that a view fits: whole view buckets of `len`, whole array buckets of `parentLen`, `views` view
      intervals to the array interval, and `buckets` array buckets to a view bucket. */
  predicate Fits(sampleCount: nat, intervalInMs: nat, parentSampleCount: nat, parentIntervalInMs: nat,
                 len: nat, parentLen: nat, views: nat, buckets: nat) {
    && 0 < sampleCount && 0 < intervalInMs && intervalInMs == sampleCount * len
    && 0 < parentSampleCount && 0 < parentIntervalInMs && parentIntervalInMs == parentSampleCount * parentLen
    && parentIntervalInMs == views * intervalInMs
    && len == buckets * parentLen
  }

  lemma {:induction false} MultipleOf(k: nat, d: nat)
    requires d > 0
    ensures (k * d) % d == 0 && (k * d) / d == k
  {
    DivUnique(k, d, 0);
  }

  lemma {:induction false} PositiveFactor(a: nat, b: nat)
    requires a * b > 0
    ensures a > 0 && b > 0
  {
  }

  lemma {:induction false} FittingAccepted(sampleCount: nat, intervalInMs: nat, parentSampleCount: nat,
                                           parentIntervalInMs: nat, len: nat, parentLen: nat, views: nat, buckets: nat)
    requires Fits(sampleCount, intervalInMs, parentSampleCount, parentIntervalInMs, len, parentLen, views, buckets)
    ensures CheckValidityForReuseStatistic(sampleCount, intervalInMs, parentSampleCount, parentIntervalInMs).None?
  {
    PositiveFactor(sampleCount, len);
    PositiveFactor(parentSampleCount, parentLen);
    MultipleOf(len, sampleCount);
    MultipleOf(parentLen, parentSampleCount);
    assert sampleCount * len == len * sampleCount && parentSampleCount * parentLen == parentLen * parentSampleCount;
    MultipleOf(views, intervalInMs);
    MultipleOf(buckets, parentLen);
  }

  /** The check accepts a view if and only if everything is made of whole multiples. */
  lemma {:induction false} AcceptedIff(sampleCount: nat, intervalInMs: nat, parentSampleCount: nat,
                                       parentIntervalInMs: nat)
    ensures CheckValidityForReuseStatistic(sampleCount, intervalInMs, parentSampleCount, parentIntervalInMs).None? <==>
            exists len, parentLen, views, buckets ::
              Fits(sampleCount, intervalInMs, parentSampleCount, parentIntervalInMs, len, parentLen, views, buckets)
  {
    if CheckValidityForReuseStatistic(sampleCount, intervalInMs, parentSampleCount, parentIntervalInMs).None? {
      var len, parentLen := intervalInMs / sampleCount, parentIntervalInMs / parentSampleCount;
      ExactQuotient(intervalInMs, sampleCount);
      ExactQuotient(parentIntervalInMs, parentSampleCount);
      ExactQuotient(parentIntervalInMs, intervalInMs);
      ExactQuotient(len, parentLen);
      assert Fits(sampleCount, intervalInMs, parentSampleCount, parentIntervalInMs, len, parentLen,
                  parentIntervalInMs / intervalInMs, len / parentLen);
    } else {
      forall len, parentLen, views, buckets
        ensures !Fits(sampleCount, intervalInMs, parentSampleCount, parentIntervalInMs, len, parentLen, views, buckets)
      {
        if Fits(sampleCount, intervalInMs, parentSampleCount, parentIntervalInMs, len, parentLen, views, buckets) {
          FittingAccepted(sampleCount, intervalInMs, parentSampleCount, parentIntervalInMs, len, parentLen, views,
                          buckets);
        }
      }
    }
  }

  lemma {:induction false} Divisor(t: nat, n: nat)
    requires t > 0 && n > 0 && t % n == 0
    ensures 0 < t / n <= t
  {
    ExactQuotient(t, n);
    MulMonotone(1, n, t / n);
  }

  lemma {:induction false} Multiple(t: nat, d: nat)
    requires t > 0 && d > 0 && t % d == 0
    ensures t == d || t >= 2 * d
  {
    ExactQuotient(t, d);
    var k := t / d;
    if k >= 2 {
      MulMonotone(2, k, d);
    } else {
      assert k == 1;
    }
  }

  /** First bucket start of the view at `now`; wraps around when less than one interval has passed since time 0. */
  function WindowStart(v: View, now: nat, len: nat): nat
    requires len > 0
  {
    (Align(now, len) - v.intervalInMs + len) % U64
  }

  lemma {:induction false} WindowStartExact(v: View, now: nat, len: nat)
    requires len > 0 && v.intervalInMs <= Align(now, len) + len && len <= v.intervalInMs && now < U64
    ensures WindowStart(v, now, len) == Align(now, len) - v.intervalInMs + len
  {
    AlignFacts(now, len);
  }

  /** Sum of `event` over the buckets the view reads at `now`. The read does not refresh the array. */
  function ViewSum(r: Ring<MetricBucket>, v: View, now: nat, event: int): int
    requires r.len > 0
  {
    if now == 0 then 0
    else SumOf(Values(r.slots, now, r.interval, Between(WindowStart(v, now, r.len), Align(now, r.len))), Reading(event))
  }

  /** Logged total of `event` over the whole buckets of the view's interval ending with the bucket of `now`. */
  ghost function WindowTotal(log: seq<Entry<MetricOp>>, v: View, now: nat, len: nat, event: int): int
    requires len > 0
  {
    Total(log, len, Align(now, len) - v.intervalInMs + len, Align(now, len), Weight(event))
  }

  /** A read of `span` ms of whole buckets ending with the bucket of `t`, when the last touch has not recycled them. */
  lemma {:induction false} SpanRead(r: Ring<MetricBucket>, log: seq<Entry<MetricOp>>, born: nat, last: nat, t: nat,
                                    span: nat, event: int)
    requires Represents(r, log, born, last, 0, METRIC) && t < U64
    requires span <= Align(t, r.len) + r.len && span <= r.interval
    requires Align(last, r.len) < Align(t, r.len) - span + r.len + r.interval
    ensures SumOf(Values(r.slots, t, r.interval,
                         Between(Align(t, r.len) - span + r.len, Align(t, r.len))), Reading(event)) ==
            Total(log, r.len, Align(t, r.len) - span + r.len, Align(t, r.len), Weight(event))
  {
    AlignFacts(t, r.len);
    CountersAdditive(event);
    WindowRead(r, log, born, last, 0, METRIC, t, Align(t, r.len) - span + r.len, Align(t, r.len), Reading(event),
               Weight(event));
  }

  /** The view reads exactly the logged total of its window, from the first full interval after time 0 on. */
  lemma {:induction false} ViewSumIsWindowTotal(r: Ring<MetricBucket>, log: seq<Entry<MetricOp>>, born: nat, last: nat,
                                                v: View, now: Millis, event: int)
    requires Represents(r, log, born, last, 0, METRIC) && v.Over(r) && last <= now && 0 < now
    ensures v.intervalInMs <= Align(now, r.len) + r.len ==>
              ViewSum(r, v, now, event) == WindowTotal(log, v, now, r.len, event)
    ensures v.intervalInMs > Align(now, r.len) + r.len ==> ViewSum(r, v, now, event) == 0
  {
    AcceptedShape(v, r);
    AlignMonotone(last, now, r.len);
    if v.intervalInMs <= Align(now, r.len) + r.len {
      WindowStartExact(v, now, r.len);
      SpanRead(r, log, born, last, now, v.intervalInMs, event);
    } else {
      NothingBetween(r.slots, now, r.interval, WindowStart(v, now, r.len), Align(now, r.len));
    }
  }

  lemma {:induction false} NothingBetween<V>(slots: seq<BucketWrap<V>>, now: nat, interval: nat, lo: int, hi: int)
    requires lo > hi
    ensures Values(slots, now, interval, Between(lo, hi)) == []
  {
    if |slots| > 0 {
      NothingBetween(slots[..|slots| - 1], now, interval, lo, hi);
    }
  }

  // ---------------------------------------------------------------- whole runs

  /** What is done to an array: a write, or a refresh of the current bucket before a read. */
  datatype Access = Write(time: nat, op: MetricOp) | Refresh(time: nat)

  function AccessOne(r: Ring<MetricBucket>, a: Access): (r': Ring<MetricBucket>)
    requires r.len > 0 && |r.slots| > 0
    ensures r'.len == r.len && |r'.slots| == |r.slots| && r'.interval == r.interval
  {
    match a
    case Write(t, op) => Record(r, t, op, METRIC)
    case Refresh(t) => if Touch(r, t, NEW_BUCKET).Some? then Touch(r, t, NEW_BUCKET).value else r
  }

  /** All accesses, in order. */
  function Play(r: Ring<MetricBucket>, run: seq<Access>): (r': Ring<MetricBucket>)
    requires r.len > 0 && |r.slots| > 0
    ensures r'.len == r.len && |r'.slots| == |r.slots| && r'.interval == r.interval
  {
    if |run| == 0 then r else AccessOne(Play(r, run[..|run| - 1]), run[|run| - 1])
  }

  /** The writes among the accesses. */
  function Writes(run: seq<Access>): seq<Entry<MetricOp>> {
    if |run| == 0 then []
    else
      var a := run[|run| - 1];
      Writes(run[..|run| - 1]) + (if a.Write? then [Entry(a.time, a.op)] else [])
  }

  /** Times that start at `born` and do not go back. */
  predicate InOrder(run: seq<Access>, born: nat) {
    && (forall i :: 0 <= i < |run| ==> born <= run[i].time)
    && (forall i, j :: 0 <= i < j < |run| ==> run[i].time <= run[j].time)
  }

  function LastTime(run: seq<Access>, born: nat): nat {
    if |run| == 0 then born else run[|run| - 1].time
  }

  lemma {:induction false} InOrderInit(run: seq<Access>, born: nat)
    requires InOrder(run, born) && |run| > 0
    ensures InOrder(run[..|run| - 1], born) && LastTime(run[..|run| - 1], born) <= run[|run| - 1].time
    ensures born <= run[|run| - 1].time
  {
    var init := run[..|run| - 1];
    assert forall i :: 0 <= i < |init| ==> init[i] == run[i];
  }

  /** One access keeps the array equal in meaning to the writes, and leaves its own bucket current. */
  lemma {:induction false} AccessRepresents(r: Ring<MetricBucket>, log: seq<Entry<MetricOp>>, born: nat, last: nat,
                                            a: Access)
    requires Represents(r, log, born, last, 0, METRIC) && last <= a.time && 0 < a.time
    ensures Represents(AccessOne(r, a), log + (if a.Write? then [Entry(a.time, a.op)] else []), born, a.time, 0, METRIC)
    ensures AccessOne(r, a).slots[SlotOf(a.time, r.len, |r.slots|)].start == Align(a.time, r.len)
  {
    if a.Write? {
      AlignFacts(a.time, r.len);
      RecordRepresents(r, log, born, last, 0, METRIC, a.time, a.op);
    } else {
      TouchRepresents(r, log, born, last, 0, METRIC, a.time);
      assert log + [] == log;
    }
  }

  lemma {:induction false} PlayRepresents(n: nat, len: nat, born: nat, run: seq<Access>)
    requires Config(len, n * len, n) && 0 < born && InOrder(run, born)
    ensures Represents(Play(NewRing(n, len, born, NEW_BUCKET), run), Writes(run), born, LastTime(run, born), 0, METRIC)
  {
    NewRepresents(n, len, born, METRIC);
    if |run| > 0 {
      var init := run[..|run| - 1];
      InOrderInit(run, born);
      PlayRepresents(n, len, born, init);
      AccessRepresents(Play(NewRing(n, len, born, NEW_BUCKET), init), Writes(init), born, LastTime(init, born),
                       run[|run| - 1]);
    }
  }

  /** A read of the whole array right after a refresh. */
  lemma {:induction false} RefreshedRead(r: Ring<MetricBucket>, log: seq<Entry<MetricOp>>, born: nat, last: nat,
                                         now: Millis, event: int)
    requires Represents(r, log, born, last, 0, METRIC) && last <= now && 0 < now
    ensures Touch(r, now, NEW_BUCKET).Some?
    ensures SumOf(Values(Touch(r, now, NEW_BUCKET).value.slots, now, r.interval, Always()), Reading(event)) ==
            Total(log, r.len, Align(now, r.len) - r.interval + r.len, Align(now, r.len), Weight(event))
  {
    TouchRepresents(r, log, born, last, 0, METRIC, now);
    CountersAdditive(event);
    FullRead(Touch(r, now, NEW_BUCKET).value, log, born, 0, METRIC, now, Reading(event), Weight(event));
  }

  lemma {:induction false} OverSameShape<V>(v: View, r: Ring<V>, r': Ring<V>)
    requires v.Over(r) && r'.len == r.len && r'.interval == r.interval && |r'.slots| == |r.slots|
    ensures v.Over(r')
  {
  }

  /** The array refines the log: after any writes and refreshes at times that do not go back, a refresh succeeds,
      every accepted view reads the logged total of its own window, and a read of the whole array after a refresh that
      of the last interval. Only while less than one interval has passed since time 0, the view reads 0. */
  lemma {:induction false} RunRefinesLog(n: nat, len: nat, born: nat, run: seq<Access>, r: Ring<MetricBucket>, v: View,
                                         now: Millis, event: int)
    requires Config(len, n * len, n) && 0 < born && InOrder(run, born) && LastTime(run, born) <= now
    requires v.Over(NewRing(n, len, born, NEW_BUCKET)) && r == Play(NewRing(n, len, born, NEW_BUCKET), run)
    ensures Touch(r, now, NEW_BUCKET).Some?
    ensures ViewSum(r, v, now, event) ==
            if v.intervalInMs <= Align(now, r.len) + r.len then WindowTotal(Writes(run), v, now, r.len, event) else 0
    ensures SumOf(Values(Touch(r, now, NEW_BUCKET).value.slots, now, r.interval, Always()), Reading(event)) ==
            Total(Writes(run), r.len, Align(now, r.len) - r.interval + r.len, Align(now, r.len), Weight(event))
  {
    PlayRepresents(n, len, born, run);
    OverSameShape(v, NewRing(n, len, born, NEW_BUCKET), r);
    ReadsAreTotals(r, Writes(run), born, LastTime(run, born), v, now, event);
  }

  lemma {:induction false} ReadsAreTotals(r: Ring<MetricBucket>, log: seq<Entry<MetricOp>>, born: nat, last: nat,
                                          v: View, now: Millis, event: int)
    requires Represents(r, log, born, last, 0, METRIC) && v.Over(r) && last <= now && 0 < now
    ensures Touch(r, now, NEW_BUCKET).Some?
    ensures ViewSum(r, v, now, event) ==
            if v.intervalInMs <= Align(now, r.len) + r.len then WindowTotal(log, v, now, r.len, event) else 0
    ensures SumOf(Values(Touch(r, now, NEW_BUCKET).value.slots, now, r.interval, Always()), Reading(event)) ==
            Total(log, r.len, Align(now, r.len) - r.interval + r.len, Align(now, r.len), Weight(event))
  {
    ViewSumIsWindowTotal(r, log, born, last, v, now, event);
    RefreshedRead(r, log, born, last, now, event);
  }

  /** The counts that the run adds for one event in the buckets starting in `lo..hi`, read off the accesses. */
  ghost function Added(run: seq<Access>, len: nat, lo: int, hi: int, event: int): int
    requires len > 0
  {
    if |run| == 0 then 0
    else
      var a := run[|run| - 1];
      Added(run[..|run| - 1], len, lo, hi, event) +
      (if a.Write? && a.op.AddCount? && a.op.event == event && lo <= Align(a.time, len) <= hi then a.op.count else 0)
  }

  lemma {:induction false} AddedIsTotal(run: seq<Access>, len: nat, lo: int, hi: int, event: int)
    requires len > 0
    ensures Total(Writes(run), len, lo, hi, Weight(event)) ==
            if 0 <= event <= 4 then Added(run, len, lo, hi, event) else 0
  {
    if |run| > 0 {
      var init, a := run[..|run| - 1], run[|run| - 1];
      AddedIsTotal(init, len, lo, hi, event);
      if a.Write? {
        assert Writes(run)[..|Writes(init)|] == Writes(init);
      } else {
        assert Writes(run) == Writes(init);
      }
    }
  }

  lemma {:induction false} EventReads(r: Ring<MetricBucket>, run: seq<Access>, born: nat, last: nat, v: View,
                                      now: Millis, event: int)
    requires Represents(r, Writes(run), born, last, 0, METRIC) && v.Over(r) && last <= now && 0 < now
    ensures Touch(r, now, NEW_BUCKET).Some?
    ensures ViewSum(r, v, now, event) ==
            if v.intervalInMs <= Align(now, r.len) + r.len && 0 <= event <= 4
            then Added(run, r.len, Align(now, r.len) - v.intervalInMs + r.len, Align(now, r.len), event) else 0
    ensures SumOf(Values(Touch(r, now, NEW_BUCKET).value.slots, now, r.interval, Always()), Reading(event)) ==
            if 0 <= event <= 4
            then Added(run, r.len, Align(now, r.len) - r.interval + r.len, Align(now, r.len), event) else 0
  {
    ReadsAreTotals(r, Writes(run), born, last, v, now, event);
    var hi := Align(now, r.len);
    AddedIsTotal(run, r.len, hi - v.intervalInMs + r.len, hi, event);
    AddedIsTotal(run, r.len, hi - r.interval + r.len, hi, event);
  }

  /** So after any run a read of event 0 to 4 returns the sum of exactly the counts that were added for that event in
      the window, and a read of any other event 0. */
  lemma {:induction false} RunCountsEvents(n: nat, len: nat, born: nat, run: seq<Access>, r: Ring<MetricBucket>,
                                           v: View, now: Millis, event: int)
    requires Config(len, n * len, n) && 0 < born && InOrder(run, born) && LastTime(run, born) <= now
    requires v.Over(NewRing(n, len, born, NEW_BUCKET)) && r == Play(NewRing(n, len, born, NEW_BUCKET), run)
    ensures Touch(r, now, NEW_BUCKET).Some?
    ensures ViewSum(r, v, now, event) ==
            if v.intervalInMs <= Align(now, r.len) + r.len && 0 <= event <= 4
            then Added(run, r.len, Align(now, r.len) - v.intervalInMs + r.len, Align(now, r.len), event) else 0
    ensures SumOf(Values(Touch(r, now, NEW_BUCKET).value.slots, now, r.interval, Always()), Reading(event)) ==
            if 0 <= event <= 4
            then Added(run, r.len, Align(now, r.len) - r.interval + r.len, Align(now, r.len), event) else 0
  {
    PlayRepresents(n, len, born, run);
    OverSameShape(v, NewRing(n, len, born, NEW_BUCKET), r);
    EventReads(r, run, born, LastTime(run, born), v, now, event);
  }

  // ---------------------------------------------------------------- the previous window

  /** The sum one view bucket earlier, as the previous rate reads it. */
  function PreviousSum(r: Ring<MetricBucket>, v: View, now: nat, event: int): int
    requires r.len > 0 && v.sampleCount > 0
  {
    ViewSum(r, v, Sub64(now, v.BucketLength()), event)
  }

  /** The previous window is still exact although later writes have recycled slots, as long as the view is
      shorter than the array, or nothing has been written since the previous view bucket. */
  lemma {:induction false} PreviousSumIsWindowTotal(r: Ring<MetricBucket>, log: seq<Entry<MetricOp>>, born: nat,
                                                    last: nat, v: View, now: Millis, event: int)
    requires Represents(r, log, born, last, 0, METRIC) && v.Over(r) && last <= now
    requires v.BucketLength() < now && v.intervalInMs <= Align(now - v.BucketLength(), r.len) + r.len
    requires v.intervalInMs < r.interval || Align(last, r.len) + v.BucketLength() <= Align(now, r.len)
    ensures PreviousSum(r, v, now, event) == WindowTotal(log, v, now - v.BucketLength(), r.len, event)
  {
    AcceptedShape(v, r);
    var step := v.BucketLength();
    AgeOf(now, step);
    WindowStartExact(v, now - step, r.len);
    EarlierSpanRead(r, log, born, last, now, step, v.intervalInMs, event);
  }

  /** Before there is a whole previous window, counted from time 0, the previous sum is 0. */
  lemma {:induction false} PreviousSumEarly(r: Ring<MetricBucket>, born: nat, last: nat, v: View, now: Millis,
                                            event: int)
    requires Shape(r, born, last) && v.Over(r) && last <= now
    requires now <= v.BucketLength() || v.intervalInMs > Align(now - v.BucketLength(), r.len) + r.len
    ensures PreviousSum(r, v, now, event) == 0
  {
    AcceptedShape(v, r);
    if now >= v.BucketLength() {
      AgeOf(now, v.BucketLength());
    }
    if now > v.BucketLength() {
      WrappedStart(v, now - v.BucketLength(), r.len);
      NothingBetween(r.slots, now - v.BucketLength(), r.interval, WindowStart(v, now - v.BucketLength(), r.len),
                     Align(now - v.BucketLength(), r.len));
    } else if now < v.BucketLength() {
      WrappedRead(r, born, last, v, Sub64(now, v.BucketLength()));
    }
  }

  lemma {:induction false} WrappedStart(v: View, t: nat, len: nat)
    requires len > 0 && v.intervalInMs > Align(t, len) + len && v.intervalInMs < U32
    ensures WindowStart(v, t, len) > Align(t, len)
  {
  }

  /** A read at a time that has wrapped around sees nothing. */
  lemma {:induction false} WrappedRead(r: Ring<MetricBucket>, born: nat, last: Millis, v: View, t: nat)
    requires Shape(r, born, last) && r.len <= v.intervalInMs < U32 && U64 - U32 <= t < U64
    ensures Values(r.slots, t, r.interval, Between(WindowStart(v, t, r.len), Align(t, r.len))) == []
  {
    AlignFacts(t, r.len);
    WindowStartExact(v, t, r.len);
    forall i | 0 <= i < |r.slots|
      ensures r.slots[i].start < WindowStart(v, t, r.len)
    {
      assert SlotShape(r, i, born, last);
      AlignFacts(last, r.len);
      AlignFacts(born, r.len);
    }
    NothingFrom(r.slots, t, r.interval, WindowStart(v, t, r.len), Align(t, r.len));
  }

  lemma {:induction false} NothingFrom<V>(slots: seq<BucketWrap<V>>, now: nat, interval: nat, lo: int, hi: int)
    requires forall i :: 0 <= i < |slots| ==> slots[i].start < lo
    ensures Values(slots, now, interval, Between(lo, hi)) == []
  {
    if |slots| > 0 {
      var init := slots[..|slots| - 1];
      assert forall i :: 0 <= i < |init| ==> init[i] == slots[i];
      NothingFrom(init, now, interval, lo, hi);
    }
  }

  /** As `SpanRead`, for a span that ends `step` ms before `now`. */
  lemma {:induction false} EarlierSpanRead(r: Ring<MetricBucket>, log: seq<Entry<MetricOp>>, born: nat, last: nat,
                                           now: nat, step: nat, span: nat, event: int)
    requires Represents(r, log, born, last, 0, METRIC) && last <= now < U64
    requires step <= now && step <= span <= r.interval && step % r.len == 0
    requires span <= Align(now - step, r.len) + r.len
    requires 2 * span <= r.interval || Align(last, r.len) + step <= Align(now, r.len)
    ensures var t := now - step;
            SumOf(Values(r.slots, t, r.interval,
                         Between(Align(t, r.len) - span + r.len, Align(t, r.len))), Reading(event)) ==
            Total(log, r.len, Align(t, r.len) - span + r.len, Align(t, r.len), Weight(event))
  {
    AlignMonotone(last, now, r.len);
    var t := now - step;
    AlignShift(t, step, r.len);
    assert Align(last, r.len) < Align(t, r.len) - span + r.len + r.interval;
    SpanRead(r, log, born, last, t, span, event);
  }

  lemma {:induction false} AlignShift(t: nat, d: nat, len: nat)
    requires len > 0 && d % len == 0
    ensures Align(t + d, len) == Align(t, len) + d
  {
    AlignFacts(t, len);
    AlignFacts(d, len);
    assert t + d == (t / len + d / len) * len + t % len;
    DivUnique(t / len + d / len, len, t % len);
  }

  /** Whatever has been written since, the previous window is never over-counted. */
  lemma {:induction false} PreviousSumNeverOver(r: Ring<MetricBucket>, log: seq<Entry<MetricOp>>, born: nat, last: nat,
                                                v: View, now: Millis, event: int)
    requires Represents(r, log, born, last, 0, METRIC) && v.Over(r) && last <= now
    requires v.BucketLength() < now && v.intervalInMs <= Align(now - v.BucketLength(), r.len) + r.len
    requires forall j :: 0 <= j < |log| ==> Weight(event)(log[j].op) >= 0
    ensures PreviousSum(r, v, now, event) <= WindowTotal(log, v, now - v.BucketLength(), r.len, event)
  {
    AcceptedShape(v, r);
    var step := v.BucketLength();
    AgeOf(now, step);
    WindowStartExact(v, now - step, r.len);
    SpanNeverOver(r, log, born, last, now - step, v.intervalInMs, event);
  }

  lemma {:induction false} SpanNeverOver(r: Ring<MetricBucket>, log: seq<Entry<MetricOp>>, born: nat, last: nat, t: nat,
                                         span: nat, event: int)
    requires Represents(r, log, born, last, 0, METRIC) && span <= Align(t, r.len) + r.len
    requires forall j :: 0 <= j < |log| ==> Weight(event)(log[j].op) >= 0
    ensures SumOf(Values(r.slots, t, r.interval,
                         Between(Align(t, r.len) - span + r.len, Align(t, r.len))), Reading(event)) <=
            Total(log, r.len, Align(t, r.len) - span + r.len, Align(t, r.len), Weight(event))
  {
    CountersAdditive(event);
    RangeNeverOver(r, log, born, last, 0, METRIC, t, Align(t, r.len) - span + r.len, Align(t, r.len), Reading(event),
                   Weight(event));
  }

  /** No counted operation of the range has lost its slot. */
  ghost predicate AllHeld(r: Ring<MetricBucket>, log: seq<Entry<MetricOp>>, lo: int, hi: int, event: int)
    requires Sized(r)
  {
    forall j :: 0 <= j < |log| && lo <= Align(log[j].time, r.len) <= hi && Weight(event)(log[j].op) > 0 ==>
      r.slots[SlotOf(log[j].time, r.len, |r.slots|)].start == Align(log[j].time, r.len)
  }

  lemma {:induction false} SpanExactIff(r: Ring<MetricBucket>, log: seq<Entry<MetricOp>>, born: nat, last: nat, t: nat,
                                        span: nat, event: int)
    requires Represents(r, log, born, last, 0, METRIC) && span <= Align(t, r.len) + r.len && span <= r.interval
    requires t < U64
    requires forall j :: 0 <= j < |log| ==> Weight(event)(log[j].op) >= 0
    ensures SumOf(Values(r.slots, t, r.interval,
                         Between(Align(t, r.len) - span + r.len, Align(t, r.len))), Reading(event)) ==
            Total(log, r.len, Align(t, r.len) - span + r.len, Align(t, r.len), Weight(event)) <==>
            AllHeld(r, log, Align(t, r.len) - span + r.len, Align(t, r.len), event)
  {
    AlignFacts(t, r.len);
    CountersAdditive(event);
    var lo, hi := Align(t, r.len) - span + r.len, Align(t, r.len);
    RangeExactIff(r, log, born, last, 0, METRIC, t, lo, hi, Reading(event), Weight(event));
    forall s: nat | lo <= s <= hi
      ensures !Deprecated(t, s, r.interval)
    {
      AgeOf(t, s);
    }
  }

  lemma {:induction false} PreviousSumHeldIff(r: Ring<MetricBucket>, log: seq<Entry<MetricOp>>, born: nat, last: nat,
                                              v: View, now: Millis, event: int)
    requires Represents(r, log, born, last, 0, METRIC) && v.Over(r) && last <= now
    requires v.BucketLength() < now && v.intervalInMs <= Align(now - v.BucketLength(), r.len) + r.len
    requires forall j :: 0 <= j < |log| ==> Weight(event)(log[j].op) >= 0
    ensures var hi := Align(now - v.BucketLength(), r.len);
            PreviousSum(r, v, now, event) == WindowTotal(log, v, now - v.BucketLength(), r.len, event) <==>
            AllHeld(r, log, hi - v.intervalInMs + r.len, hi, event)
  {
    AcceptedShape(v, r);
    var step := v.BucketLength();
    AgeOf(now, step);
    WindowStartExact(v, now - step, r.len);
    SpanExactIff(r, log, born, last, now - step, v.intervalInMs, event);
  }

  // ---------------------------------------------------------------- which writes keep their slot

  /** Some access falls in the bucket that starts at `start`. */
  ghost predicate TouchedIn(run: seq<Access>, len: nat, start: int)
    requires len > 0
  {
    exists k :: 0 <= k < |run| && Align(run[k].time, len) == start
  }

  /** A slot starts where it was laid out at creation, or at the bucket of an access. */
  ghost predicate Grounded(r: Ring<MetricBucket>, run: seq<Access>, born: nat)
    requires Sized(r)
  {
    forall i :: 0 <= i < |r.slots| ==>
      r.slots[i].start + r.len <= Align(born, r.len) + r.interval || TouchedIn(run, r.len, r.slots[i].start)
  }

  /** The slot of every access holds its bucket or a later one. */
  ghost predicate Reached(r: Ring<MetricBucket>, run: seq<Access>)
    requires Sized(r)
  {
    forall k :: 0 <= k < |run| ==> r.slots[SlotOf(run[k].time, r.len, |r.slots|)].start >= Align(run[k].time, r.len)
  }

  lemma {:induction false} TouchedMore(run: seq<Access>, a: Access, len: nat, start: int)
    requires len > 0
    ensures TouchedIn(run, len, start) ==> TouchedIn(run + [a], len, start)
    ensures TouchedIn(run + [a], len, Align(a.time, len))
  {
    if TouchedIn(run, len, start) {
      var k :| 0 <= k < |run| && Align(run[k].time, len) == start;
      assert (run + [a])[k] == run[k];
    }
    assert (run + [a])[|run|] == a;
  }

  /** An access leaves every slot where it is or moves it on to the bucket of the access. */
  lemma {:induction false} AccessMoves(r: Ring<MetricBucket>, a: Access, i: nat)
    requires Sized(r) && i < |r.slots|
    ensures var s := AccessOne(r, a).slots[i].start;
            s == r.slots[i].start || (s == Align(a.time, r.len) && s >= r.slots[i].start)
  {
  }

  lemma {:induction false} AccessGrounded(r: Ring<MetricBucket>, run: seq<Access>, a: Access, born: nat)
    requires Sized(r) && Grounded(r, run, born)
    ensures Grounded(AccessOne(r, a), run + [a], born)
  {
    var r' := AccessOne(r, a);
    forall i | 0 <= i < |r'.slots|
      ensures r'.slots[i].start + r.len <= Align(born, r.len) + r.interval ||
              TouchedIn(run + [a], r.len, r'.slots[i].start)
    {
      AccessMoves(r, a, i);
      TouchedMore(run, a, r.len, r.slots[i].start);
    }
  }

  lemma {:induction false} AccessReached(r: Ring<MetricBucket>, run: seq<Access>, a: Access)
    requires Sized(r) && Reached(r, run)
    requires AccessOne(r, a).slots[SlotOf(a.time, r.len, |r.slots|)].start == Align(a.time, r.len)
    ensures Reached(AccessOne(r, a), run + [a])
  {
    var r' := AccessOne(r, a);
    forall k | 0 <= k <= |run|
      ensures r'.slots[SlotOf((run + [a])[k].time, r.len, |r.slots|)].start >= Align((run + [a])[k].time, r.len)
    {
      if k < |run| {
        AccessMoves(r, a, SlotOf(run[k].time, r.len, |r.slots|));
      }
    }
  }

  /** Where the slots are, seen from the accesses. */
  ghost predicate Tracks(r: Ring<MetricBucket>, run: seq<Access>, born: nat) {
    Sized(r) && Grounded(r, run, born) && Reached(r, run)
  }

  lemma {:induction false} NewTracks(n: nat, len: nat, born: nat)
    requires Config(len, n * len, n)
    ensures Tracks(NewRing(n, len, born, NEW_BUCKET), [], born)
  {
    forall i | 0 <= i < n
      ensures NewRing(n, len, born, NEW_BUCKET).slots[i].start + len <= Align(born, len) + n * len
    {
      NewRingSlot(n, len, born, i);
    }
  }

  lemma {:induction false} AccessTracks(r: Ring<MetricBucket>, run: seq<Access>, log: seq<Entry<MetricOp>>, born: nat,
                                        last: nat, a: Access)
    requires Tracks(r, run, born) && Represents(r, log, born, last, 0, METRIC) && last <= a.time && 0 < a.time
    ensures Tracks(AccessOne(r, a), run + [a], born)
  {
    AccessRepresents(r, log, born, last, a);
    AccessGrounded(r, run, a, born);
    AccessReached(r, run, a);
  }

  lemma {:induction false} PlayTracks(n: nat, len: nat, born: nat, run: seq<Access>)
    requires Config(len, n * len, n) && 0 < born && InOrder(run, born)
    ensures Tracks(Play(NewRing(n, len, born, NEW_BUCKET), run), run, born)
  {
    NewTracks(n, len, born);
    if |run| > 0 {
      var init, a := run[..|run| - 1], run[|run| - 1];
      InOrderInit(run, born);
      PlayTracks(n, len, born, init);
      PlayRepresents(n, len, born, init);
      AccessTracks(Play(NewRing(n, len, born, NEW_BUCKET), init), init, Writes(init), born, LastTime(init, born), a);
      assert run == init + [a];
    }
  }

  /** Some access falls in a later bucket of the slot of `t`. */
  ghost predicate Recycled(run: seq<Access>, len: nat, n: nat, t: nat)
    requires len > 0 && n > 0
  {
    exists k :: 0 <= k < |run| && SlotOf(run[k].time, len, n) == SlotOf(t, len, n) &&
                Align(run[k].time, len) > Align(t, len)
  }

  /** A slot that has moved on from bucket `a` was moved by an access. */
  lemma {:induction false} MovedByAccess(r: Ring<MetricBucket>, run: seq<Access>, born: nat, last: nat, i: nat, t: nat)
    requires Shape(r, born, last) && Grounded(r, run, born) && born <= t && i == SlotOf(t, r.len, |r.slots|)
    requires r.slots[i].start > Align(t, r.len)
    ensures Recycled(run, r.len, |r.slots|, t)
  {
    var a, s := Align(t, r.len), r.slots[i].start;
    AlignFacts(t, r.len);
    AlignMonotone(born, t, r.len);
    assert SlotShape(r, i, born, last);
    SameSlotGap(a, s, r.len, |r.slots|, r.interval);
    assert TouchedIn(run, r.len, s);
    var k :| 0 <= k < |run| && Align(run[k].time, r.len) == s;
    AlignFacts(run[k].time, r.len);
    assert SlotOf(run[k].time, r.len, |r.slots|) == i;
  }

  /** A write keeps its slot if and only if no access falls in a later bucket of that slot. */
  lemma {:induction false} HeldIff(r: Ring<MetricBucket>, run: seq<Access>, log: seq<Entry<MetricOp>>, born: nat,
                                   last: nat, j: nat)
    requires Shape(r, born, last) && NotBehind(r, log, born, last) && Grounded(r, run, born) && Reached(r, run)
    requires j < |log|
    ensures r.slots[SlotOf(log[j].time, r.len, |r.slots|)].start == Align(log[j].time, r.len) <==>
            !Recycled(run, r.len, |r.slots|, log[j].time)
  {
    var t, i := log[j].time, SlotOf(log[j].time, r.len, |r.slots|);
    if r.slots[i].start > Align(t, r.len) {
      MovedByAccess(r, run, born, last, i, t);
    }
  }

  // ---------------------------------------------------------------- exactly when the previous window is read in full

  /** Two bucket starts of one slot less than two intervals apart are one interval apart. */
  lemma {:induction false} NextCycle(a: nat, s: nat, len: nat, n: nat, interval: nat)
    requires len > 0 && n > 0 && interval == n * len && a % len == 0 && s % len == 0
    requires SlotOf(a, len, n) == SlotOf(s, len, n) && a < s < a + 2 * interval
    ensures s == a + interval
  {
    SameSlotGap(a, s, len, n, interval);
    if s > a + interval {
      GridStep(a, len, n, interval);
      IntervalGrid(a, a + interval, len, n, interval);
      SameSlotGap(a + interval, s, len, n, interval);
    }
  }

  lemma {:induction false} GridStep(a: nat, len: nat, n: nat, interval: nat)
    requires len > 0 && n > 0 && interval == n * len && a % len == 0
    ensures (a + interval) % len == 0
  {
    AlignFacts(a, len);
    assert a + interval == (a / len + n) * len + 0;
    DivUnique(a / len + n, len, 0);
  }

  /** While the accesses reach less than two intervals beyond it, a bucket is recycled exactly by an access one interval
      later. */
  lemma {:induction false} RecycledIff(run: seq<Access>, len: nat, n: nat, interval: nat, t: nat)
    requires len > 0 && n > 0 && interval == n * len
    requires forall k :: 0 <= k < |run| ==> Align(run[k].time, len) < Align(t, len) + 2 * interval
    ensures Recycled(run, len, n, t) <==> TouchedIn(run, len, Align(t, len) + interval)
  {
    AlignFacts(t, len);
    if Recycled(run, len, n, t) {
      var k :| 0 <= k < |run| && SlotOf(run[k].time, len, n) == SlotOf(t, len, n) &&
               Align(run[k].time, len) > Align(t, len);
      AlignFacts(run[k].time, len);
      NextCycle(Align(t, len), Align(run[k].time, len), len, n, interval);
    }
    if TouchedIn(run, len, Align(t, len) + interval) {
      var k :| 0 <= k < |run| && Align(run[k].time, len) == Align(t, len) + interval;
      AlignFacts(run[k].time, len);
      IntervalGrid(Align(t, len), Align(run[k].time, len), len, n, interval);
      assert SlotOf(run[k].time, len, n) == SlotOf(t, len, n);
      MulMonotone(1, n, len);
    }
  }

  /** A counted write of the range whose slot has been taken over: one interval later its slot was accessed again. */
  ghost predicate Overwritten(run: seq<Access>, len: nat, interval: nat, lo: int, hi: int, event: int)
    requires len > 0
  {
    var log := Writes(run);
    exists j :: 0 <= j < |log| && lo <= Align(log[j].time, len) <= hi && Weight(event)(log[j].op) > 0 &&
                TouchedIn(run, len, Align(log[j].time, len) + interval)
  }

  /** Exactly when: after any writes and refreshes at times that do not go back, the previous window of any accepted
      view is read exactly if and only if none of its counted writes was followed, one array interval later, by a write
      or a refresh. */
  lemma {:induction false} PreviousSumExactIff(n: nat, len: nat, born: nat, run: seq<Access>, r: Ring<MetricBucket>,
                                               v: View, now: Millis, event: int)
    requires Config(len, n * len, n) && 0 < born && InOrder(run, born) && LastTime(run, born) <= now
    requires r == Play(NewRing(n, len, born, NEW_BUCKET), run) && v.Over(NewRing(n, len, born, NEW_BUCKET))
    requires v.BucketLength() < now && v.intervalInMs <= Align(now - v.BucketLength(), len) + len
    requires forall j :: 0 <= j < |Writes(run)| ==> Weight(event)(Writes(run)[j].op) >= 0
    ensures var hi := Align(now - v.BucketLength(), len);
            PreviousSum(r, v, now, event) == WindowTotal(Writes(run), v, now - v.BucketLength(), len, event) <==>
            !Overwritten(run, len, r.interval, hi - v.intervalInMs + len, hi, event)
  {
    PlayRepresents(n, len, born, run);
    PlayTracks(n, len, born, run);
    OverSameShape(v, NewRing(n, len, born, NEW_BUCKET), r);
    PreviousSumHeldIff(r, Writes(run), born, LastTime(run, born), v, now, event);
    HeldOrOverwritten(r, run, born, LastTime(run, born), v, now, event);
  }

  lemma {:induction false} InOrderBefore(run: seq<Access>, born: nat, k: nat, len: nat)
    requires InOrder(run, born) && k < |run| && len > 0
    ensures Align(run[k].time, len) <= Align(LastTime(run, born), len)
  {
    AlignMonotone(run[k].time, LastTime(run, born), len);
  }

  lemma {:induction false} HeldOrOverwritten(r: Ring<MetricBucket>, run: seq<Access>, born: nat, last: nat, v: View,
                                             now: Millis, event: int)
    requires Represents(r, Writes(run), born, last, 0, METRIC) && Grounded(r, run, born) && Reached(r, run)
    requires v.Over(r) && last <= now && v.BucketLength() < now && InOrder(run, born) && last == LastTime(run, born)
    ensures var hi := Align(now - v.BucketLength(), r.len);
            AllHeld(r, Writes(run), hi - v.intervalInMs + r.len, hi, event) <==>
            !Overwritten(run, r.len, r.interval, hi - v.intervalInMs + r.len, hi, event)
  {
    AcceptedShape(v, r);
    var step, log := v.BucketLength(), Writes(run);
    AlignShift(now - step, step, r.len);
    AlignMonotone(last, now, r.len);
    var hi := Align(now - step, r.len);
    forall j | 0 <= j < |log| && hi - v.intervalInMs + r.len <= Align(log[j].time, r.len) <= hi
      ensures r.slots[SlotOf(log[j].time, r.len, |r.slots|)].start == Align(log[j].time, r.len) <==>
              !TouchedIn(run, r.len, Align(log[j].time, r.len) + r.interval)
    {
      HeldIff(r, run, log, born, last, j);
      forall k | 0 <= k < |run|
        ensures Align(run[k].time, r.len) < Align(log[j].time, r.len) + 2 * r.interval
      {
        InOrderBefore(run, born, k, r.len);
      }
      RecycledIff(run, r.len, |r.slots|, r.interval, log[j].time);
    }
  }

  /** Then it is under-counted. */
  lemma {:induction false} OverwrittenIsMissed(n: nat, len: nat, born: nat, run: seq<Access>, r: Ring<MetricBucket>,
                                               v: View, now: Millis, event: int)
    requires Config(len, n * len, n) && 0 < born && InOrder(run, born) && LastTime(run, born) <= now
    requires r == Play(NewRing(n, len, born, NEW_BUCKET), run) && v.Over(NewRing(n, len, born, NEW_BUCKET))
    requires v.BucketLength() < now && v.intervalInMs <= Align(now - v.BucketLength(), len) + len
    requires forall j :: 0 <= j < |Writes(run)| ==> Weight(event)(Writes(run)[j].op) >= 0
    requires var hi := Align(now - v.BucketLength(), len);
             Overwritten(run, len, r.interval, hi - v.intervalInMs + len, hi, event)
    ensures PreviousSum(r, v, now, event) < WindowTotal(Writes(run), v, now - v.BucketLength(), len, event)
  {
    PreviousSumExactIff(n, len, born, run, r, v, now, event);
    PlayRepresents(n, len, born, run);
    OverSameShape(v, NewRing(n, len, born, NEW_BUCKET), r);
    PreviousSumNeverOver(r, Writes(run), born, LastTime(run, born), v, now, event);
  }

  /** The failing input: one pass, and any access one array interval later, be it a write or only a refresh. A view as
      long as the array no longer reads the pass, which belongs to its previous window. */
  lemma {:induction false} PreviousSumMisses(n: nat, len: nat, interval: nat, born: nat, v: View, now: Millis,
                                             second: Access, run: seq<Access>, r: Ring<MetricBucket>)
    requires interval == n * len && Config(len, interval, n) && 0 < born && interval <= born && now == born + interval
    requires v.Over(NewRing(n, len, born, NEW_BUCKET)) && v.intervalInMs == interval
    requires second.time == now && (second.Write? ==> Weight(PASS)(second.op) >= 0)
    requires run == PassThen(born, second) && r == Play(NewRing(n, len, born, NEW_BUCKET), run)
    ensures v.BucketLength() <= now
    ensures PreviousSum(r, v, now, PASS) < WindowTotal(Writes(run), v, now - v.BucketLength(), len, PASS)
  {
    AcceptedShape(v, NewRing(n, len, born, NEW_BUCKET));
    AlignFacts(now - v.BucketLength(), len);
    PassThenWrites(born, second);
    OneIntervalApart(n, len, interval, born, v.BucketLength(), now, second);
    OverwrittenIsMissed(n, len, born, run, r, v, now, PASS);
  }

  function PassThen(first: nat, second: Access): seq<Access> {
    [Write(first, AddCount(PASS, 1)), second]
  }

  lemma {:induction false} PassThenWrites(first: nat, second: Access)
    ensures var log := Writes(PassThen(first, second));
            && |log| > 0 && log[0] == Entry(first, AddCount(PASS, 1))
            && log[1..] == if second.Write? then [Entry(second.time, second.op)] else []
    ensures first <= second.time ==>
              InOrder(PassThen(first, second), first) && LastTime(PassThen(first, second), first) == second.time
    ensures (second.Write? ==> Weight(PASS)(second.op) >= 0) ==>
              forall j :: 0 <= j < |Writes(PassThen(first, second))| ==>
                Weight(PASS)(Writes(PassThen(first, second))[j].op) >= 0
  {
    var run, one := PassThen(first, second), [Write(first, AddCount(PASS, 1))];
    assert run[..1] == one && one[..0] == [];
    assert Writes(one) == [Entry(first, AddCount(PASS, 1))];
  }

  lemma {:induction false} OneIntervalApart(n: nat, len: nat, interval: nat, born: nat, step: nat, now: nat,
                                            second: Access)
    requires len > 0 && n > 0 && interval == n * len && now == born + interval && second.time == now
    requires len <= step <= interval && step % len == 0
    ensures var hi := Align(now - step, len);
            Overwritten(PassThen(born, second), len, interval, hi - interval + len, hi, PASS)
  {
    var run := PassThen(born, second);
    PassThenWrites(born, second);
    GridStep(0, len, n, interval);
    AlignShift(born, interval, len);
    AlignShift(now - step, step, len);
    assert TouchedIn(run, len, Align(born, len) + interval) by {
      assert Align(run[1].time, len) == Align(born, len) + interval;
    }
    assert Weight(PASS)(Writes(run)[0].op) > 0;
  }
}
