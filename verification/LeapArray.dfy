/** The circular array of buckets as the object that is updated in place. A bucket pointer handed out by
    the source is a slot index here. */
module LeapArrays {
  import opened Clock
  import opened LeapRing
  import opened Options

  class LeapArray<V> {
    const bucketLengthInMs: nat
    const sampleCount: nat
    const intervalInMs: nat
    const data: array<BucketWrap<V>>

    ghost function Contents(): Ring<V>
      reads data
    {
      Ring(bucketLengthInMs, intervalInMs, data[..])
    }

    ghost predicate Valid() {
      && Config(bucketLengthInMs, intervalInMs, data.Length)
      && sampleCount == data.Length
    }

    constructor (sampleCount: nat, intervalInMs: nat, now: Millis, empty: V)
      requires 0 < sampleCount && 0 < intervalInMs < U32 && intervalInMs % sampleCount == 0
      ensures Valid() && fresh(data)
      ensures Contents() == NewRing(sampleCount, intervalInMs / sampleCount, now, empty)
    {
      this.bucketLengthInMs := intervalInMs / sampleCount;
      this.sampleCount := sampleCount;
      this.intervalInMs := intervalInMs;
      this.data := new BucketWrap<V>[sampleCount](_ => BucketWrap(0, empty));
      new;
      ExactQuotient(intervalInMs, sampleCount);
      LayOut(data, bucketLengthInMs, now, empty);
    }

    /** Lays the buckets out from the slot of `now` to the end of the array, then from its beginning. */
    static method LayOut(data: array<BucketWrap<V>>, len: nat, now: Millis, empty: V)
      requires data.Length > 0 && len > 0
      modifies data
      ensures data[..] == NewRing(data.Length, len, now, empty).slots
    {
      var n := data.Length;
      ghost var laidOut := NewRing(n, len, now, empty).slots;
      var idx := (now / len) % n;
      var startTime := Align(now, len);
      assert startTime == StartAhead(now, len, 0);
      for i := idx to n
        invariant startTime == StartAhead(now, len, i - idx)
        invariant forall k :: idx <= k < i ==> data[k] == laidOut[k]
      {
        data[i] := BucketWrap(startTime, empty);
        startTime := startTime + len;
        StartNext(now, len, i - idx);
      }
      for i := 0 to idx
        invariant startTime == StartAhead(now, len, n - idx + i)
        invariant forall k :: idx <= k < n || 0 <= k < i ==> data[k] == laidOut[k]
      {
        data[i] := BucketWrap(startTime, empty);
        startTime := startTime + len;
        StartNext(now, len, n - idx + i);
      }
    }

    /** Checks the parameters and builds the array, or reports the error. */
    static method Create(sampleCount: nat, intervalInMs: nat, now: Millis, empty: V) returns (r: Option<LeapArray<V>>)
      requires 0 < intervalInMs < U32
      ensures r.None? <==> sampleCount == 0 || intervalInMs % sampleCount != 0
      ensures r.Some? ==> r.value.Valid() && fresh(r.value) && fresh(r.value.data)
      ensures r.Some? ==> r.value.Contents() == NewRing(sampleCount, intervalInMs / sampleCount, now, empty)
    {
      if sampleCount == 0 || intervalInMs % sampleCount != 0 {
        return None;
      }
      var la := new LeapArray(sampleCount, intervalInMs, now, empty);
      return Some(la);
    }

    /** The slot of the current bucket, reset first when it belongs to an older cycle. */
    method CurrentBucketOfTime(now: Millis, empty: V) returns (slot: Option<nat>)
      requires Valid()
      modifies data
      ensures match Touch(old(Contents()), now, empty)
              case None => slot.None? && Contents() == old(Contents())
              case Some(c) => slot == Some(SlotOf(now, bucketLengthInMs, data.Length)) && Contents() == c
    {
      if now <= 0 {
        return None;
      }
      var idx := (now / bucketLengthInMs) % data.Length;
      var bucketStart := Align(now, bucketLengthInMs);
      var current := data[idx];
      if bucketStart == current.start {
        slot := Some(idx);
      } else if bucketStart > current.start {
        data[idx] := BucketWrap(bucketStart, empty);
        assert data[..] == old(data[..])[idx := BucketWrap(bucketStart, empty)];
        slot := Some(idx);
      } else if sampleCount == 1 {
        slot := Some(idx);
      } else {
        slot := None;
      }
    }

    /** All buckets that are not expired at `now` and whose start satisfies the predicate. */
    method ValuesConditional(now: nat, pred: nat -> bool) returns (ret: seq<BucketWrap<V>>)
      requires Valid()
      ensures ret == if now == 0 then [] else Values(Contents().slots, now, intervalInMs, pred)
    {
      ret := [];
      if now <= 0 {
        return;
      }
      for i := 0 to data.Length
        invariant ret == Values(data[..i], now, intervalInMs, pred)
      {
        assert data[..i + 1][..i] == data[..i];
        if !(Deprecated(now, data[i].start, intervalInMs) || !pred(data[i].start)) {
          ret := ret + [data[i]];
        }
      }
      assert data[..data.Length] == data[..];
    }

    method ValuesWithTime(now: nat) returns (ret: seq<BucketWrap<V>>)
      requires Valid()
      ensures ret == if now == 0 then [] else Values(Contents().slots, now, intervalInMs, Always())
    {
      ret := ValuesConditional(now, Always());
    }
  }
}
