/** The metric bucket: five event counters and the largest concurrency. */
module MetricBuckets {
  import opened LeapRing

  const PASS := 0
  const BLOCK := 1
  const COMPLETE := 2
  const ERROR := 3
  const RT := 4
  const EVENT_TOTAL := 5

  type Counters = c: seq<int> | |c| == 5 witness [0, 0, 0, 0, 0]

  datatype MetricBucket = MetricBucket(counter: Counters, maxConcurrency: nat)

  /** The two ways a bucket is written. */
  datatype MetricOp = AddCount(event: int, count: int) | UpdateConcurrency(concurrency: int)

  const NEW_BUCKET := MetricBucket([0, 0, 0, 0, 0], 0)

  predicate Known(event: int) {
    0 <= event < EVENT_TOTAL
  }

  /** Unknown events are reported and change nothing. */
  function Apply(b: MetricBucket, op: MetricOp): MetricBucket {
    match op
    case AddCount(event, count) =>
      if !Known(event) then b else b.(counter := b.counter[event := b.counter[event] + count])
    case UpdateConcurrency(c) =>
      if c > b.maxConcurrency then b.(maxConcurrency := c) else b
  }

  function Get(b: MetricBucket, event: int): int {
    if Known(event) then b.counter[event] else 0
  }

  /** What a metric array is made of. */
  const METRIC: Payload<MetricBucket, MetricOp> := Payload(NEW_BUCKET, Apply)

  function Reading(event: int): MetricBucket -> int {
    (b: MetricBucket) => Get(b, event)
  }

  /** What an operation adds to the counter of `event`. */
  function Weight(event: int): MetricOp -> int {
    (op: MetricOp) => if op.AddCount? && op.event == event && Known(event) then op.count else 0
  }

  function ReadConcurrency(): MetricBucket -> int {
    (b: MetricBucket) => b.maxConcurrency
  }

  function Concurrency(): MetricOp -> int {
    (op: MetricOp) => if op.UpdateConcurrency? then op.concurrency else 0
  }

  /** The events are numbered from 0 to 4. */
  lemma {:induction false} EventNumbers()
    ensures [PASS, BLOCK, COMPLETE, ERROR, RT] == [0, 1, 2, 3, 4]
  {
  }

  /** Which writes count for which event: a count added for one of the five events counts for that event alone; a count
      for any other number counts for nothing and changes nothing; only a concurrency report can raise the largest
      concurrency. */
  lemma {:induction false} CountedFor(b: MetricBucket, op: MetricOp, event: int)
    ensures 0 <= event <= 4 ==>
              Get(Apply(b, op), event) == Get(b, event) + (if op.AddCount? && op.event == event then op.count else 0)
    ensures !(0 <= event <= 4) ==> Get(b, event) == 0
    ensures op.AddCount? && !(0 <= op.event <= 4) ==> Apply(b, op) == b
    ensures Apply(b, op).maxConcurrency ==
            if op.UpdateConcurrency? && op.concurrency > b.maxConcurrency then op.concurrency else b.maxConcurrency
  {
  }

  lemma {:induction false} CountersAdditive(event: int)
    ensures Additive(METRIC, Reading(event), Weight(event))
    ensures forall op: MetricOp ::
              Weight(event)(op) ==
              if op.AddCount? && op.event == event && 0 <= event <= 4 then op.count else 0
  {
    forall b: MetricBucket, op: MetricOp
      ensures Reading(event)(METRIC.apply(b, op)) == Reading(event)(b) + Weight(event)(op)
    {
      assert METRIC.apply(b, op) == Apply(b, op);
    }
  }

  /** The largest concurrency starts at 0 and only grows, so 0 stands for none. */
  lemma {:induction false} ConcurrencyPeaking()
    ensures Peaking(METRIC, ReadConcurrency(), Concurrency())
  {
    forall b: MetricBucket, op: MetricOp
      ensures ReadConcurrency()(METRIC.apply(b, op)) ==
              if Concurrency()(op) > ReadConcurrency()(b) then Concurrency()(op) else ReadConcurrency()(b)
    {
      assert METRIC.apply(b, op) == Apply(b, op);
    }
  }
}
