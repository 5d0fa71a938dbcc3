/** The circuit breaker as the object whose fields every call updates. */
module CircuitBreakers {
  import opened Breakers
  import opened Clock
  import opened LeapArrays
  import opened LeapRing

  class CircuitBreaker {
    const rule: Rule
    const stat: LeapArray<Counter>
    var state: BreakerState
    var nextRetryTimestampMs: nat
    var curProbeNumber: nat
    /** What the registered listeners have been told. */
    var events: seq<Edge>

    ghost function Model(): Breaker
      reads this, stat.data
    {
      Breaker(rule, state, nextRetryTimestampMs, curProbeNumber, stat.Contents(), events)
    }

    ghost predicate Valid() {
      stat.Valid()
    }

    constructor (rule: Rule, now: Millis)
      requires ValidRule(rule)
      ensures Valid() && fresh(stat) && fresh(stat.data)
      ensures Model() == NewBreaker(rule, now)
    {
      this.rule := rule;
      this.stat := new LeapArray(BucketCount(rule), rule.statIntervalMs, now, ZERO);
      state := Closed;
      nextRetryTimestampMs := 0;
      curProbeNumber := 0;
      events := [];
      new;
      ExactQuotient(rule.statIntervalMs, BucketCount(rule));
    }

    method FromClosedToOpen(now: Millis) returns (done: bool)
      modifies this
      ensures Model() == Breakers.FromClosedToOpen(old(Model()), now) && done == (old(state) == Closed)
    {
      done := state == Closed;
      if done {
        state := Open;
        nextRetryTimestampMs := now + rule.retryTimeoutMs;
        events := events + [Edge(Closed, Open)];
      }
    }

    /** The caller's entry gets the exit hook exactly when this returns true. */
    method FromOpenToHalfOpen() returns (done: bool)
      modifies this
      ensures Model() == Breakers.FromOpenToHalfOpen(old(Model())) && done == (old(state) == Open)
    {
      done := state == Open;
      if done {
        state := HalfOpen;
        events := events + [Edge(Open, HalfOpen)];
      }
    }

    method FromHalfOpenToOpen(now: Millis) returns (done: bool)
      modifies this
      ensures Model() == Breakers.FromHalfOpenToOpen(old(Model()), now) && done == (old(state) == HalfOpen)
    {
      done := state == HalfOpen;
      if done {
        state := Open;
        curProbeNumber := 0;
        nextRetryTimestampMs := now + rule.retryTimeoutMs;
        events := events + [Edge(HalfOpen, Open)];
      }
    }

    method FromHalfOpenToClosed() returns (done: bool)
      modifies this
      ensures Model() == Breakers.FromHalfOpenToClosed(old(Model())) && done == (old(state) == HalfOpen)
    {
      done := state == HalfOpen;
      if done {
        state := Closed;
        curProbeNumber := 0;
        events := events + [Edge(HalfOpen, Closed)];
      }
    }

    /** The hook a probing entry runs when it exits. */
    method ExitHook(blocked: bool)
      modifies this
      ensures Model() == if blocked then Rollback(old(Model())) else old(Model())
    {
      if blocked && state == HalfOpen {
        state := Open;
        events := events + [Edge(HalfOpen, Open)];
      }
    }

    method TryPass(now: Millis) returns (passed: bool)
      modifies this
      ensures (Model(), passed) == Breakers.TryPass(old(Model()), now)
      ensures passed <==>
              || old(state) == Closed
              || (old(state) == Open && now >= old(nextRetryTimestampMs))
              || (old(state) == HalfOpen && rule.probeNum >= 1)
      ensures state == if old(state) == Open && passed then HalfOpen else old(state)
    {
      passed := false;
      if state == Closed {
        passed := true;
      } else if state == Open {
        if now >= nextRetryTimestampMs {
          passed := FromOpenToHalfOpen();
        }
      } else if state == HalfOpen && rule.probeNum > 0 {
        passed := true;
      }
    }

    /** Empties every counter that is not expired. */
    method ResetMetric(now: Millis)
      requires Valid()
      modifies stat.data
      ensures stat.Contents() == Clear(old(stat.Contents()), now, ZERO)
    {
      var data := stat.data;
      ghost var cleared := Clear(stat.Contents(), now, ZERO).slots;
      for i := 0 to data.Length
        invariant forall k :: 0 <= k < i ==> data[k] == cleared[k]
        invariant forall k :: i <= k < data.Length ==> data[k] == old(data[k])
      {
        if !Deprecated(now, data[i].start, stat.intervalInMs) {
          data[i] := BucketWrap(data[i].start, ZERO);
        }
      }
      assert data[..] == cleared;
    }

    /** Sums of both counters over all buckets that are not expired. */
    method AllCounters(now: Millis) returns (bad: int, total: int)
      requires Valid() && now > 0
      ensures (bad, total) == WindowCounts(stat.Contents(), now)
    {
      var values := stat.ValuesWithTime(now);
      bad, total := 0, 0;
      for i := 0 to |values|
        invariant bad == SumOf(values[..i], ReadBad()) && total == SumOf(values[..i], ReadTotal())
      {
        assert values[..i + 1][..i] == values[..i];
        bad := bad + values[i].value.bad;
        total := total + values[i].value.total;
      }
      assert values[..|values|] == values;
    }

    /** Adds one request to the current bucket; false when there is none. */
    method AddRequest(now: Millis, bad: bool) returns (ok: bool)
      requires Valid()
      modifies stat.data
      ensures ok == Touch(old(stat.Contents()), now, ZERO).Some?
      ensures stat.Contents() == Record(old(stat.Contents()), now, bad, COUNTERS)
    {
      var slot := stat.CurrentBucketOfTime(now, ZERO);
      ok := slot.Some?;
      if ok {
        var b := stat.data[slot.value];
        stat.data[slot.value] := BucketWrap(b.start, Count(b.value, bad));
      }
      assert stat.data[..] == Record(old(stat.Contents()), now, bad, COUNTERS).slots;
    }

    method OnRequestComplete(now: Millis, rt: nat, err: bool)
      requires Valid()
      modifies this, stat.data
      ensures Model() == Breakers.OnRequestComplete(old(Model()), now, rt, err)
      ensures old(state) == Open ==> state == Open
      ensures old(state) == HalfOpen && Touch(old(stat.Contents()), now, ZERO).Some? ==>
                state ==
                if (if rule.strategy == SlowRequestRatio then rt > rule.maxAllowedRtMs else err) then Open
                else if old(curProbeNumber) + 1 >= rule.probeNum then Closed
                else HalfOpen
    {
      var bad := Bad(rule, rt, err);
      var ok := AddRequest(now, bad);
      if !ok {
        return;
      }
      if state == Open {
        return;
      }
      if state == HalfOpen {
        if bad {
          var _ := FromHalfOpenToOpen(now);
        } else {
          curProbeNumber := curProbeNumber + 1;
          if rule.probeNum == 0 || curProbeNumber >= rule.probeNum {
            var _ := FromHalfOpenToClosed();
            ResetMetric(now);
          }
        }
        return;
      }
      var badCount, totalCount := AllCounters(now);
      if totalCount < rule.minRequestAmount {
        return;
      }
      if Exceeds(rule, badCount, totalCount) {
        var _ := FromClosedToOpen(now);
      }
    }
  }
}
