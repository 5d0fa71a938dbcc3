/** The metric array and the read-only view as objects. The ghost log is everything recorded since creation;
    every method keeps the array equal in meaning to it, so the reads are stated over the log. */
module BucketLeapArrays {
  import opened Clock
  import opened LeapArrays
  import opened LeapRing
  import opened MetricBuckets
  import opened Options
  import opened SlidingWindow

  class BucketLeapArray {
    const data: LeapArray<MetricBucket>
    ghost const born: Millis
    ghost var last: Millis
    ghost var log: seq<Entry<MetricOp>>

    ghost predicate Valid()
      reads this, data.data
    {
      data.Valid() && Represents(data.Contents(), log, born, last, 0, METRIC)
    }

    constructor (sampleCount: nat, intervalInMs: nat, now: Millis)
      requires 0 < sampleCount && 0 < intervalInMs < U32 && intervalInMs % sampleCount == 0
      ensures Valid() && fresh(data) && fresh(data.data)
      ensures log == [] && last == now
      ensures data.sampleCount == sampleCount && data.intervalInMs == intervalInMs
    {
      data := new LeapArray(sampleCount, intervalInMs, now, NEW_BUCKET);
      born := now;
      last := now;
      log := [];
      ExactQuotient(intervalInMs, sampleCount);
      NewRepresents(sampleCount, intervalInMs / sampleCount, now, METRIC);
    }

    /** Applies one operation to the current bucket; only a zero clock is refused. */
    method Write(now: Millis, op: MetricOp)
      requires Valid() && last <= now
      modifies this, data.data
      ensures Valid()
      ensures now == 0 ==> log == old(log) && last == old(last)
      ensures now > 0 ==> log == old(log) + [Entry(now, op)] && last == now
      ensures data.Contents() == Record(old(data.Contents()), now, op, METRIC)
    {
      ghost var before := data.Contents();
      var slot := data.CurrentBucketOfTime(now, NEW_BUCKET);
      if slot.Some? {
        var b := data.data[slot.value];
        data.data[slot.value] := BucketWrap(b.start, Apply(b.value, op));
      }
      if now > 0 {
        RecordRepresents(before, log, born, last, 0, METRIC, now, op);
        TouchRepresents(before, log, born, last, 0, METRIC, now);
        assert data.Contents().slots == Record(before, now, op, METRIC).slots;
        log := log + [Entry(now, op)];
        last := now;
      }
    }

    method AddCountWithTime(now: Millis, event: int, count: int)
      requires Valid() && last <= now
      modifies this, data.data
      ensures Valid()
      ensures now > 0 ==> log == old(log) + [Entry(now, AddCount(event, count))] && last == now
      ensures now == 0 ==> log == old(log) && last == old(last)
    {
      Write(now, AddCount(event, count));
    }

    /** Makes the bucket of `now` current without recording anything. */
    method Refresh(now: Millis)
      requires Valid() && last <= now
      modifies this, data.data
      ensures Valid() && log == old(log)
      ensures now > 0 ==> last == now
      ensures now > 0 ==>
                data.data[SlotOf(now, data.bucketLengthInMs, data.data.Length)].start ==
                Align(now, data.bucketLengthInMs)
    {
      ghost var before := data.Contents();
      var slot := data.CurrentBucketOfTime(now, NEW_BUCKET);
      if now > 0 {
        TouchRepresents(before, log, born, last, 0, METRIC, now);
        last := now;
      }
    }

    /** Refreshes the current bucket, then sums `event` over all buckets that are not expired. */
    method CountWithTime(now: Millis, event: int) returns (count: int)
      requires Valid() && last <= now
      modifies this, data.data
      ensures Valid() && log == old(log)
      ensures count == if now == 0 then 0
                       else WindowTotal(log, View(data.sampleCount, data.intervalInMs), now,
                                         data.bucketLengthInMs, event)
    {
      Refresh(now);
      var values := data.ValuesWithTime(now);
      count := Count(values, event);
      if now > 0 {
        CountersAdditive(event);
        FullRead(data.Contents(), log, born, 0, METRIC, now, Reading(event), Weight(event));
      }
    }
  }

  method Count(values: seq<BucketWrap<MetricBucket>>, event: int) returns (sum: int)
    ensures sum == SumOf(values, Reading(event))
  {
    sum := 0;
    for i := 0 to |values|
      invariant sum == SumOf(values[..i], Reading(event))
    {
      assert values[..i + 1][..i] == values[..i];
      sum := sum + Get(values[i].value, event);
    }
    assert values[..|values|] == values;
  }

  class SlidingWindowMetric {
    const sampleCount: nat
    const intervalInMs: nat
    const bucketLengthInMs: nat
    const arr: BucketLeapArray

    ghost function Shape(): View {
      View(sampleCount, intervalInMs)
    }

    ghost predicate Valid()
      reads arr, arr.data.data
    {
      && arr.Valid()
      && Shape().Over(arr.data.Contents())
      && bucketLengthInMs == Shape().BucketLength()
    }

    constructor (sampleCount: nat, intervalInMs: nat, arr: BucketLeapArray)
      requires arr.Valid() && View(sampleCount, intervalInMs).Over(arr.data.Contents())
      ensures Valid() && this.arr == arr && Shape() == View(sampleCount, intervalInMs)
    {
      this.sampleCount := sampleCount;
      this.intervalInMs := intervalInMs;
      this.bucketLengthInMs := intervalInMs / sampleCount;
      this.arr := arr;
    }

    /** Builds a view, or reports why the array cannot serve it. */
    static method Create(sampleCount: nat, intervalInMs: nat, arr: BucketLeapArray)
      returns (m: Option<SlidingWindowMetric>, err: Option<StatisticError>)
      requires arr.Valid()
      ensures err ==
              CheckValidityForReuseStatistic(sampleCount, intervalInMs, arr.data.sampleCount, arr.data.intervalInMs)
      ensures m.None? <==> err.Some?
      ensures m.Some? ==> m.value.Valid() && m.value.arr == arr && m.value.Shape() == View(sampleCount, intervalInMs)
    {
      err := CheckValidityForReuseStatistic(sampleCount, intervalInMs, arr.data.sampleCount, arr.data.intervalInMs);
      if err.Some? {
        return None, err;
      }
      var swm := new SlidingWindowMetric(sampleCount, intervalInMs, arr);
      m := Some(swm);
    }

    method SumAt(now: nat, event: int) returns (sum: int)
      requires Valid()
      ensures sum == ViewSum(arr.data.Contents(), Shape(), now, event)
    {
      var len := arr.data.bucketLengthInMs;
      var end := Align(now, len);
      var start := (end - intervalInMs + len) % U64;
      var buckets := arr.data.ValuesConditional(now, Between(start, end));
      sum := Count(buckets, event);
    }

    /** The sum over the view's window equals the logged total of that window. */
    method GetSumWithTime(now: Millis, event: int) returns (sum: int)
      requires Valid() && arr.last <= now
      ensures now > 0 && intervalInMs <= Align(now, arr.data.bucketLengthInMs) + arr.data.bucketLengthInMs ==>
                sum == WindowTotal(arr.log, Shape(), now, arr.data.bucketLengthInMs, event)
      ensures now == 0 || intervalInMs > Align(now, arr.data.bucketLengthInMs) + arr.data.bucketLengthInMs ==> sum == 0
    {
      sum := SumAt(now, event);
      if now > 0 {
        ViewSumIsWindowTotal(arr.data.Contents(), arr.log, arr.born, arr.last, Shape(), now, event);
      }
    }

    /** The rate over the window that ended one view bucket ago. */
    method GetPreviousQPS(now: Millis, event: int) returns (qps: real)
      requires Valid() && arr.last <= now
      ensures qps == PreviousSum(arr.data.Contents(), Shape(), now, event) as real / (intervalInMs as real / 1000.0)
      ensures intervalInMs < arr.data.intervalInMs && bucketLengthInMs < now &&
              intervalInMs <= Align(now - bucketLengthInMs, arr.data.bucketLengthInMs) + arr.data.bucketLengthInMs ==>
                qps == WindowTotal(arr.log, Shape(), now - bucketLengthInMs, arr.data.bucketLengthInMs, event) as real
                       / (intervalInMs as real / 1000.0)
    {
      var sum := SumAt(Sub64(now, bucketLengthInMs), event);
      qps := sum as real / (intervalInMs as real / 1000.0);
      if intervalInMs < arr.data.intervalInMs && bucketLengthInMs < now &&
         intervalInMs <= Align(now - bucketLengthInMs, arr.data.bucketLengthInMs) + arr.data.bucketLengthInMs {
        PreviousSumIsWindowTotal(arr.data.Contents(), arr.log, arr.born, arr.last, Shape(), now, event);
      }
    }
  }
}
