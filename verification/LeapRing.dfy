/** The circular array of time buckets as a value: creation, lazy refresh, recording, filtered reads,
    and the log of recorded operations that it stands for. */
module LeapRing {
  import opened Clock
  import opened Options

  datatype BucketWrap<+V> = BucketWrap(start: nat, value: V)

  /** `len` is the bucket length and `interval` the time span of the whole array, both in ms. */
  datatype Ring<+V> = Ring(len: nat, interval: nat, slots: seq<BucketWrap<V>>)

  /** One recorded operation. */
  datatype Entry<+E> = Entry(time: nat, op: E)

  /** What a bucket generator supplies: the empty bucket and the effect of one operation on a bucket. */
  datatype Payload<!V, !E> = Payload(empty: V, apply: (V, E) -> V)

  predicate Config(len: nat, interval: nat, n: nat) {
    0 < len && 0 < n && interval == n * len && interval < U32
  }

  predicate Sized<V>(r: Ring<V>) {
    Config(r.len, r.interval, |r.slots|)
  }

  // ---------------------------------------------------------------- operations

  /** How many buckets after the creation bucket slot `i` starts, when creation falls in slot `idx`. */
  function Ahead(i: nat, idx: nat, n: nat): nat
    requires i < n && idx < n
  {
    if i >= idx then i - idx else n - idx + i
  }

  /** Start of the bucket that lies `ahead` buckets after the one of `now`. */
  function StartAhead(now: nat, len: nat, ahead: nat): nat
    requires len > 0
  {
    Align(now, len) + ahead * len
  }

  lemma {:induction false} StartNext(now: nat, len: nat, ahead: nat)
    requires len > 0
    ensures StartAhead(now, len, ahead + 1) == StartAhead(now, len, ahead) + len
  {
  }

  /** A new array: the slot of `now` starts at the current bucket, the others at the following ones. */
  function NewRing<V>(n: nat, len: nat, now: nat, empty: V): Ring<V>
    requires n > 0 && len > 0
  {
    Ring(len, n * len,
         seq(n, i requires 0 <= i < n =>
           BucketWrap(StartAhead(now, len, Ahead(i, SlotOf(now, len, n), n)), empty)))
  }

  /** Makes the bucket of `now` current, resetting the slot when it still holds an older cycle.
      `None` is the error result: a zero clock, or a slot that is already ahead of `now`. */
  function Touch<V>(r: Ring<V>, now: nat, empty: V): Option<Ring<V>>
    requires r.len > 0 && |r.slots| > 0
  {
    var idx := SlotOf(now, r.len, |r.slots|);
    var bucketStart := Align(now, r.len);
    if now == 0 then None
    else if bucketStart == r.slots[idx].start then Some(r)
    else if bucketStart > r.slots[idx].start then Some(r.(slots := r.slots[idx := BucketWrap(bucketStart, empty)]))
    else if |r.slots| == 1 then Some(r)
    else None
  }

  /** When there is an error: at time 0, and when the clock has gone back before the start of the slot, unless it is the
      only one, which is then kept as it is. */
  lemma {:induction false} TouchFailsIff<V>(r: Ring<V>, now: nat, empty: V)
    requires r.len > 0 && |r.slots| > 0
    ensures var behind := Align(now, r.len) < r.slots[(now / r.len) % |r.slots|].start;
            && (Touch(r, now, empty).None? <==> now == 0 || (behind && |r.slots| >= 2))
            && (now > 0 && behind && |r.slots| == 1 ==> Touch(r, now, empty) == Some(r))
  {
  }

  /** Applies `op` to the current bucket of `now`; an array that cannot be touched is left alone. */
  function Record<V, E>(r: Ring<V>, now: nat, op: E, p: Payload<V, E>): Ring<V>
    requires r.len > 0 && |r.slots| > 0
  {
    match Touch(r, now, p.empty)
    case None => r
    case Some(c) =>
      var idx := SlotOf(now, r.len, |r.slots|);
      c.(slots := c.slots[idx := BucketWrap(c.slots[idx].start, p.apply(c.slots[idx].value, op))])
  }

  /** Expiry test; a bucket in the future wraps around to a huge age and so counts as expired. */
  predicate Deprecated(now: nat, start: nat, interval: nat) {
    Sub64(now, start) > interval
  }

  /** Buckets that are not expired at `now` and whose start satisfies `pred`, in slot order. */
  function Values<V>(slots: seq<BucketWrap<V>>, now: nat, interval: nat, pred: nat -> bool): seq<BucketWrap<V>> {
    if |slots| == 0 then []
    else
      var b := slots[|slots| - 1];
      Values(slots[..|slots| - 1], now, interval, pred) +
      (if Deprecated(now, b.start, interval) || !pred(b.start) then [] else [b])
  }

  function SumOf<V>(buckets: seq<BucketWrap<V>>, read: V -> int): int {
    if |buckets| == 0 then 0
    else SumOf(buckets[..|buckets| - 1], read) + read(buckets[|buckets| - 1].value)
  }

  function Always(): nat -> bool {
    (start: nat) => true
  }

  function Between(lo: int, hi: int): nat -> bool {
    (start: nat) => lo <= start <= hi
  }

  // ---------------------------------------------------------------- the log

  /** The operations of the log that fall in the bucket starting at `start`, applied in order. */
  ghost function Fold<V, E>(log: seq<Entry<E>>, start: nat, len: nat, p: Payload<V, E>): V
    requires len > 0
  {
    if |log| == 0 then p.empty
    else
      var e := log[|log| - 1];
      var before := Fold(log[..|log| - 1], start, len, p);
      if Align(e.time, len) == start then p.apply(before, e.op) else before
  }

  /** Total weight of the logged operations whose bucket starts in `lo..hi`. */
  ghost function Total<E>(log: seq<Entry<E>>, len: nat, lo: int, hi: int, weight: E -> int): int
    requires len > 0
  {
    if |log| == 0 then 0
    else
      var e := log[|log| - 1];
      Total(log[..|log| - 1], len, lo, hi, weight) +
      (if lo <= Align(e.time, len) <= hi then weight(e.op) else 0)
  }

  /** As `Total`, but only for operations whose bucket one of the first slots still holds. */
  ghost function Held<V, E>(log: seq<Entry<E>>, slots: seq<BucketWrap<V>>, n: nat, len: nat, shown: nat -> bool,
                            weight: E -> int): int
    requires len > 0 && n > 0
  {
    if |log| == 0 then 0
    else
      var e := log[|log| - 1];
      var i := SlotOf(e.time, len, n);
      Held(log[..|log| - 1], slots, n, len, shown, weight) +
      (if i < |slots| && slots[i].start == Align(e.time, len) && shown(slots[i].start) then weight(e.op) else 0)
  }

  // ---------------------------------------------------------------- representation

  /** Every slot holds an aligned bucket that belongs there, between the creation bucket and the later of
      the last touched bucket and the last bucket laid out at creation. */
  ghost predicate Shape<V>(r: Ring<V>, born: nat, last: nat) {
    && Sized(r)
    && born <= last
    && forall i :: 0 <= i < |r.slots| ==> SlotShape(r, i, born, last)
  }

  ghost predicate SlotShape<V>(r: Ring<V>, i: nat, born: nat, last: nat)
    requires Sized(r) && i < |r.slots|
  {
    var s := r.slots[i].start;
    && s % r.len == 0
    && SlotOf(s, r.len, |r.slots|) == i
    && Align(born, r.len) <= s
    && (s <= Align(last, r.len) || s + r.len <= Align(born, r.len) + r.interval)
  }

  /** The slot of every logged operation holds its bucket or a later one. */
  ghost predicate NotBehind<V, E>(r: Ring<V>, log: seq<Entry<E>>, born: nat, last: nat)
    requires Sized(r)
  {
    forall j :: 0 <= j < |log| ==>
      && born <= log[j].time <= last
      && r.slots[SlotOf(log[j].time, r.len, |r.slots|)].start >= Align(log[j].time, r.len)
  }

  /** The array stands for `log`. Slots starting before `floor` may hold anything: they are expired
      buckets that a reset of the visible ones passed over. */
  ghost predicate Represents<V, E>(r: Ring<V>, log: seq<Entry<E>>, born: nat, last: nat, floor: int, p: Payload<V, E>) {
    && Shape(r, born, last)
    && NotBehind(r, log, born, last)
    && forall i :: 0 <= i < |r.slots| && r.slots[i].start >= floor ==>
         r.slots[i].value == Fold(log, r.slots[i].start, r.len, p)
  }

  // ---------------------------------------------------------------- creation

  lemma {:induction false} AheadRemainder(q: nat, i: nat, n: nat)
    requires i < n
    ensures (q + Ahead(i, q % n, n)) % n == i
  {
    AlignFacts(q, n);
    if i >= q % n {
      DivUnique(q / n, n, i);
    } else {
      assert (q / n + 1) * n == (q / n) * n + n;
      DivUnique(q / n + 1, n, i);
    }
  }

  lemma {:induction false} NewRingSlot(n: nat, len: nat, now: nat, i: nat)
    requires n > 0 && len > 0 && i < n
    ensures var s := StartAhead(now, len, Ahead(i, SlotOf(now, len, n), n));
            s % len == 0 && SlotOf(s, len, n) == i && s + len <= Align(now, len) + n * len
  {
    AlignFacts(now, len);
    var q := now / len;
    var ahead := Ahead(i, q % n, n);
    assert q * len + ahead * len == (q + ahead) * len + 0;
    DivUnique(q + ahead, len, 0);
    AheadRemainder(q, i, n);
    MulMonotone(ahead, n, len);
  }

  /** A new array stands for the empty log. */
  lemma {:induction false} NewRepresents<V, E>(n: nat, len: nat, now: nat, p: Payload<V, E>)
    requires Config(len, n * len, n)
    ensures Represents<V, E>(NewRing(n, len, now, p.empty), [], now, now, 0, p)
  {
    var r := NewRing(n, len, now, p.empty);
    forall i | 0 <= i < n
      ensures SlotShape(r, i, now, now)
    {
      NewRingSlot(n, len, now, i);
    }
  }

  // ---------------------------------------------------------------- refresh and record

  /** Under a clock that does not go back, the slot of `now` is never ahead of `now`. */
  lemma {:induction false} SlotNotAhead<V>(r: Ring<V>, born: nat, last: nat, now: nat)
    requires Shape(r, born, last) && last <= now
    ensures r.slots[SlotOf(now, r.len, |r.slots|)].start <= Align(now, r.len)
  {
    var n, idx := |r.slots|, SlotOf(now, r.len, |r.slots|);
    var s := r.slots[idx].start;
    AlignFacts(now, r.len);
    AlignMonotone(last, now, r.len);
    AlignMonotone(born, now, r.len);
    assert SlotShape(r, idx, born, last);
    if Align(now, r.len) < s {
      SameSlotGap(Align(now, r.len), s, r.len, n, r.interval);
      assert false;
    }
  }

  lemma {:induction false} FoldNone<V, E>(log: seq<Entry<E>>, start: nat, len: nat, p: Payload<V, E>)
    requires len > 0
    requires forall j :: 0 <= j < |log| ==> Align(log[j].time, len) != start
    ensures Fold(log, start, len, p) == p.empty
  {
    if |log| > 0 {
      FoldNone(log[..|log| - 1], start, len, p);
    }
  }

  /** Under a non-decreasing, non-zero clock a refresh never fails. */
  lemma {:induction false} TouchShape<V>(r: Ring<V>, born: nat, last: nat, now: nat, empty: V)
    requires Shape(r, born, last) && last <= now && 0 < now
    ensures Touch(r, now, empty).Some?
    ensures var c := Touch(r, now, empty).value;
            && Shape(c, born, now)
            && |c.slots| == |r.slots| && c.len == r.len && c.interval == r.interval
            && c.slots[SlotOf(now, r.len, |r.slots|)].start == Align(now, r.len)
  {
    SlotNotAhead(r, born, last, now);
    AlignFacts(now, r.len);
    AlignMonotone(last, now, r.len);
    AlignMonotone(born, now, r.len);
    var c := Touch(r, now, empty).value;
    forall i | 0 <= i < |r.slots|
      ensures SlotShape(c, i, born, now)
    {
      assert SlotShape(r, i, born, last);
    }
  }

  /** A refresh keeps the meaning of the array. */
  lemma {:induction false} TouchRepresents<V, E>(r: Ring<V>, log: seq<Entry<E>>, born: nat, last: nat, floor: int,
                                                 p: Payload<V, E>, now: nat)
    requires Represents(r, log, born, last, floor, p) && last <= now && 0 < now
    ensures Touch(r, now, p.empty).Some?
    ensures var c := Touch(r, now, p.empty).value;
            && Represents(c, log, born, now, floor, p)
            && |c.slots| == |r.slots| && c.len == r.len && c.interval == r.interval
            && c.slots[SlotOf(now, r.len, |r.slots|)].start == Align(now, r.len)
  {
    TouchShape(r, born, last, now, p.empty);
    SlotNotAhead(r, born, last, now);
    var start := Align(now, r.len);
    AlignFacts(now, r.len);
    if start > r.slots[SlotOf(now, r.len, |r.slots|)].start {
      forall j | 0 <= j < |log|
        ensures Align(log[j].time, r.len) != start
      {
        AlignFacts(log[j].time, r.len);
      }
      FoldNone(log, start, r.len, p);
    }
  }

  /** Time may pass without anything being touched. */
  lemma {:induction false} LaterLast<V, E>(r: Ring<V>, log: seq<Entry<E>>, born: nat, last: nat, last': nat, floor: int,
                                           p: Payload<V, E>)
    requires Represents(r, log, born, last, floor, p) && last <= last'
    ensures Represents(r, log, born, last', floor, p)
  {
    AlignMonotone(last, last', r.len);
    forall i | 0 <= i < |r.slots|
      ensures SlotShape(r, i, born, last')
    {
      assert SlotShape(r, i, born, last);
    }
  }

  lemma {:induction false} FoldAppend<V, E>(log: seq<Entry<E>>, e: Entry<E>, start: nat, len: nat, p: Payload<V, E>)
    requires len > 0
    ensures Fold(log + [e], start, len, p) ==
            if Align(e.time, len) == start then p.apply(Fold(log, start, len, p), e.op) else Fold(log, start, len, p)
  {
    assert (log + [e])[..|log|] == log;
  }

  /** The slots, when an operation is applied to the bucket of `now`. */
  lemma {:induction false} ApplyKeepsSlots<V, E>(c: Ring<V>, d: Ring<V>, log: seq<Entry<E>>, e: Entry<E>, born: nat,
                                                 floor: int, p: Payload<V, E>, i: nat)
    requires Represents(c, log, born, e.time, floor, p) && floor <= Align(e.time, c.len) && i < |c.slots|
    requires var idx := SlotOf(e.time, c.len, |c.slots|);
             && c.slots[idx].start == Align(e.time, c.len)
             && d == c.(slots := c.slots[idx := BucketWrap(c.slots[idx].start, p.apply(c.slots[idx].value, e.op))])
    ensures SlotShape(d, i, born, e.time)
    ensures d.slots[i].start >= floor ==> d.slots[i].value == Fold(log + [e], d.slots[i].start, d.len, p)
  {
    assert SlotShape(c, i, born, e.time);
    FoldAppend(log, e, d.slots[i].start, d.len, p);
    AlignFacts(e.time, c.len);
  }

  /** Recording appends to the log. */
  lemma {:induction false} RecordRepresents<V, E>(r: Ring<V>, log: seq<Entry<E>>, born: nat, last: nat, floor: int,
                                                  p: Payload<V, E>, now: nat, op: E)
    requires Represents(r, log, born, last, floor, p) && last <= now && 0 < now && floor <= Align(now, r.len)
    ensures Represents(Record(r, now, op, p), log + [Entry(now, op)], born, now, floor, p)
    ensures var c := Record(r, now, op, p);
            && |c.slots| == |r.slots| && c.len == r.len && c.interval == r.interval
            && c.slots[SlotOf(now, r.len, |r.slots|)].start == Align(now, r.len)
  {
    TouchRepresents(r, log, born, last, floor, p, now);
    var c := Touch(r, now, p.empty).value;
    var d := Record(r, now, op, p);
    var e := Entry(now, op);
    forall i | 0 <= i < |d.slots|
      ensures SlotShape(d, i, born, now)
      ensures d.slots[i].start >= floor ==> d.slots[i].value == Fold(log + [e], d.slots[i].start, d.len, p)
    {
      ApplyKeepsSlots(c, d, log, e, born, floor, p, i);
    }
    assert NotBehind(d, log + [e], born, now) by {
      assert forall j :: 0 <= j < |log| ==> (log + [e])[j] == log[j];
    }
  }

  /** Empties every bucket that is not expired at `now`. */
  function Clear<V>(r: Ring<V>, now: nat, empty: V): Ring<V> {
    r.(slots := seq(|r.slots|, i requires 0 <= i < |r.slots| =>
      if Deprecated(now, r.slots[i].start, r.interval) then r.slots[i] else BucketWrap(r.slots[i].start, empty)))
  }

  /** Emptying the visible buckets forgets the whole log: the buckets it skips are too old to be seen again. */
  lemma {:induction false} ClearRepresents<V, E>(r: Ring<V>, log: seq<Entry<E>>, born: nat, last: nat, floor: int,
                                                 p: Payload<V, E>, now: nat)
    requires Represents(r, log, born, last, floor, p) && last <= now && floor <= now < U64
    ensures Represents<V, E>(Clear(r, now, p.empty), [], born, last, now - r.interval, p)
  {
    var c := Clear(r, now, p.empty);
    forall i | 0 <= i < |c.slots|
      ensures SlotShape(c, i, born, last)
      ensures c.slots[i].start >= now - r.interval ==> c.slots[i].value == p.empty
    {
      var s := r.slots[i].start;
      assert SlotShape(r, i, born, last);
      if Deprecated(now, s, r.interval) && s >= now - r.interval {
        forall j | 0 <= j < |log|
          ensures Align(log[j].time, r.len) != s
        {
          AlignFacts(log[j].time, r.len);
        }
        FoldNone(log, s, r.len, p);
      }
    }
  }

  // ---------------------------------------------------------------- reads

  /** `read` of a bucket is the total `weight` of the operations applied to it. */
  ghost predicate Additive<V(!new), E(!new)>(p: Payload<V, E>, read: V -> int, weight: E -> int) {
    && read(p.empty) == 0
    && forall v, e :: read(p.apply(v, e)) == read(v) + weight(e)
  }

  /** The starts a read at `now` sees. */
  function Shown(now: nat, interval: nat, pred: nat -> bool): nat -> bool {
    (start: nat) => !Deprecated(now, start, interval) && pred(start)
  }

  lemma {:induction false} AgeOf(now: nat, start: nat)
    requires start <= now < U64
    ensures Sub64(now, start) == now - start
  {
  }

  /** An unfiltered read shows no bucket older than one interval. */
  lemma {:induction false} ShownIsRecent(now: nat, start: nat, interval: nat)
    requires now < U64 && Shown(now, interval, Always())(start)
    ensures start >= now - interval
  {
    assert !Deprecated(now, start, interval);
    if start <= now {
      AgeOf(now, start);
    }
  }

  lemma {:induction false} FoldTotal<V(!new), E(!new)>(log: seq<Entry<E>>, start: nat, len: nat, p: Payload<V, E>,
                                                       read: V -> int, weight: E -> int)
    requires len > 0 && Additive(p, read, weight)
    ensures read(Fold(log, start, len, p)) == Total(log, len, start, start, weight)
  {
    if |log| > 0 {
      FoldTotal(log[..|log| - 1], start, len, p, read, weight);
    }
  }

  /** One more slot contributes exactly the operations of its own bucket. */
  lemma {:induction false} HeldOneMore<V, E>(log: seq<Entry<E>>, slots: seq<BucketWrap<V>>, n: nat, len: nat,
                                             shown: nat -> bool, weight: E -> int)
    requires len > 0 && 0 < |slots| <= n
    requires SlotOf(slots[|slots| - 1].start, len, n) == |slots| - 1
    ensures var b := slots[|slots| - 1];
            Held(log, slots, n, len, shown, weight) ==
            Held(log, slots[..|slots| - 1], n, len, shown, weight) +
            (if shown(b.start) then Total(log, len, b.start, b.start, weight) else 0)
  {
    if |log| > 0 {
      HeldOneMore(log[..|log| - 1], slots, n, len, shown, weight);
      var e := log[|log| - 1];
      AlignFacts(e.time, len);
      assert SlotOf(e.time, len, n) == SlotOf(Align(e.time, len), len, n);
    }
  }

  lemma {:induction false} PrefixSum<V(!new), E(!new)>(r: Ring<V>, m: nat, log: seq<Entry<E>>, born: nat, last: nat,
                                                       floor: int, p: Payload<V, E>, now: nat, pred: nat -> bool,
                                                       read: V -> int, weight: E -> int)
    requires Represents(r, log, born, last, floor, p) && Additive(p, read, weight) && m <= |r.slots|
    requires forall i :: 0 <= i < |r.slots| && Shown(now, r.interval, pred)(r.slots[i].start) ==>
               r.slots[i].start >= floor
    ensures SumOf(Values(r.slots[..m], now, r.interval, pred), read) ==
            Held(log, r.slots[..m], |r.slots|, r.len, Shown(now, r.interval, pred), weight)
  {
    var n, shown := |r.slots|, Shown(now, r.interval, pred);
    if m == 0 {
      HeldNone(log, r.slots[..0], n, r.len, shown, weight);
    } else {
      PrefixSum(r, m - 1, log, born, last, floor, p, now, pred, read, weight);
      var b := r.slots[m - 1];
      assert r.slots[..m][..m - 1] == r.slots[..m - 1];
      assert SlotShape(r, m - 1, born, last);
      HeldOneMore(log, r.slots[..m], n, r.len, shown, weight);
      var before := Values(r.slots[..m - 1], now, r.interval, pred);
      if shown(b.start) {
        FoldTotal(log, b.start, r.len, p, read, weight);
        assert (before + [b])[..|before|] == before;
      } else {
        assert before + [] == before;
      }
    }
  }

  lemma {:induction false} HeldNone<V, E>(log: seq<Entry<E>>, slots: seq<BucketWrap<V>>, n: nat, len: nat,
                                          shown: nat -> bool, weight: E -> int)
    requires len > 0 && n > 0 && slots == []
    ensures Held(log, slots, n, len, shown, weight) == 0
  {
    if |log| > 0 {
      HeldNone(log[..|log| - 1], slots, n, len, shown, weight);
    }
  }

  /** A read returns exactly the logged total of the buckets that are still held and shown. */
  lemma {:induction false} ReadIsHeld<V(!new), E(!new)>(r: Ring<V>, log: seq<Entry<E>>, born: nat, last: nat,
                                                        floor: int, p: Payload<V, E>, now: nat, pred: nat -> bool,
                                                        read: V -> int, weight: E -> int)
    requires Represents(r, log, born, last, floor, p) && Additive(p, read, weight)
    requires forall i :: 0 <= i < |r.slots| && Shown(now, r.interval, pred)(r.slots[i].start) ==>
               r.slots[i].start >= floor
    ensures SumOf(Values(r.slots, now, r.interval, pred), read) ==
            Held(log, r.slots, |r.slots|, r.len, Shown(now, r.interval, pred), weight)
  {
    PrefixSum(r, |r.slots|, log, born, last, floor, p, now, pred, read, weight);
    assert r.slots[..|r.slots|] == r.slots;
  }

  /** Every operation younger than one interval before the last touch still has its bucket in the array. */
  lemma {:induction false} RecentIsHeld<V, E>(r: Ring<V>, log: seq<Entry<E>>, born: nat, last: nat, j: nat)
    requires Shape(r, born, last) && NotBehind(r, log, born, last) && j < |log|
    requires Align(log[j].time, r.len) + r.interval > Align(last, r.len)
    ensures r.slots[SlotOf(log[j].time, r.len, |r.slots|)].start == Align(log[j].time, r.len)
  {
    var t := log[j].time;
    var i := SlotOf(t, r.len, |r.slots|);
    var s := r.slots[i].start;
    AlignFacts(t, r.len);
    AlignMonotone(born, t, r.len);
    assert SlotShape(r, i, born, last);
    if Align(t, r.len) < s {
      SameSlotGap(Align(t, r.len), s, r.len, |r.slots|, r.interval);
      assert false;
    }
  }

  /** When exactly the operations with a bucket in `lo..hi` are held and shown, the held total is the window total. */
  lemma {:induction false} HeldIsTotal<V, E>(log: seq<Entry<E>>, slots: seq<BucketWrap<V>>, n: nat, len: nat,
                                             shown: nat -> bool, lo: int, hi: int, weight: E -> int)
    requires len > 0 && |slots| == n > 0
    requires forall j :: 0 <= j < |log| ==>
               var b := slots[SlotOf(log[j].time, len, n)];
               (lo <= Align(log[j].time, len) <= hi <==> b.start == Align(log[j].time, len) && shown(b.start))
    ensures Held(log, slots, n, len, shown, weight) == Total(log, len, lo, hi, weight)
  {
    if |log| > 0 {
      var init, e := log[..|log| - 1], log[|log| - 1];
      assert forall j :: 0 <= j < |init| ==> init[j] == log[j];
      HeldIsTotal(init, slots, n, len, shown, lo, hi, weight);
      assert log == init + [e];
    }
  }

  /** A range that starts at `lo`, or at the creation bucket if that is later, is at most one interval old at
      `now` and has not been recycled by the last touch. */
  ghost predicate InReach<V>(r: Ring<V>, born: nat, last: nat, now: nat, lo: int)
    requires Sized(r)
  {
    var from := if lo < Align(born, r.len) then Align(born, r.len) else lo;
    now <= from + r.interval && Align(last, r.len) < from + r.interval
  }

  /** The operations a read of the bucket starts `lo..hi` shows are those of the range. */
  lemma {:induction false} WindowShows<V, E>(r: Ring<V>, log: seq<Entry<E>>, born: nat, last: nat, now: nat, lo: int,
                                             hi: int, j: nat)
    requires Shape(r, born, last) && NotBehind(r, log, born, last) && j < |log|
    requires hi <= now < U64 && InReach(r, born, last, now, lo)
    ensures var b := r.slots[SlotOf(log[j].time, r.len, |r.slots|)];
            (lo <= Align(log[j].time, r.len) <= hi <==>
             b.start == Align(log[j].time, r.len) && Shown(now, r.interval, Between(lo, hi))(b.start))
  {
    if lo <= Align(log[j].time, r.len) <= hi {
      AlignMonotone(born, log[j].time, r.len);
      RecentIsHeld(r, log, born, last, j);
      AgeOf(now, Align(log[j].time, r.len));
      assert !Deprecated(now, Align(log[j].time, r.len), r.interval);
    }
  }

  /** A read of the bucket starts `lo..hi` returns the logged total of those buckets, provided the range
      ends by `now` and is in reach. */
  lemma {:induction false} WindowRead<V(!new), E(!new)>(r: Ring<V>, log: seq<Entry<E>>, born: nat, last: nat,
                                                        floor: int, p: Payload<V, E>, now: nat, lo: int, hi: int,
                                                        read: V -> int, weight: E -> int)
    requires Represents(r, log, born, last, floor, p) && Additive(p, read, weight)
    requires hi <= now < U64 && floor <= lo && InReach(r, born, last, now, lo)
    ensures SumOf(Values(r.slots, now, r.interval, Between(lo, hi)), read) == Total(log, r.len, lo, hi, weight)
  {
    ReadIsHeld(r, log, born, last, floor, p, now, Between(lo, hi), read, weight);
    forall j | 0 <= j < |log|
      ensures var b := r.slots[SlotOf(log[j].time, r.len, |r.slots|)];
              (lo <= Align(log[j].time, r.len) <= hi <==>
               b.start == Align(log[j].time, r.len) && Shown(now, r.interval, Between(lo, hi))(b.start))
    {
      WindowShows(r, log, born, last, now, lo, hi, j);
    }
    HeldIsTotal(log, r.slots, |r.slots|, r.len, Shown(now, r.interval, Between(lo, hi)), lo, hi, weight);
  }

  /** As `WindowShows`, for an unfiltered read right after a refresh. */
  lemma {:induction false} FullShows<V, E>(r: Ring<V>, log: seq<Entry<E>>, born: nat, now: nat, j: nat)
    requires Shape(r, born, now) && NotBehind(r, log, born, now) && now < U64 && j < |log|
    requires r.slots[SlotOf(now, r.len, |r.slots|)].start == Align(now, r.len)
    ensures var b := r.slots[SlotOf(log[j].time, r.len, |r.slots|)];
            (Align(now, r.len) - r.interval + r.len <= Align(log[j].time, r.len) <= Align(now, r.len) <==>
             b.start == Align(log[j].time, r.len) && Shown(now, r.interval, Always())(b.start))
  {
    var s, hi := Align(log[j].time, r.len), Align(now, r.len);
    AlignFacts(log[j].time, r.len);
    AlignFacts(now, r.len);
    AlignMonotone(log[j].time, now, r.len);
    IntervalGrid(s, hi, r.len, |r.slots|, r.interval);
    var b := r.slots[SlotOf(log[j].time, r.len, |r.slots|)];
    AgeOf(now, s);
    if s + r.interval > hi {
      RecentIsHeld(r, log, born, now, j);
      assert !Deprecated(now, s, r.interval);
    } else if b.start == s && Shown(now, r.interval, Always())(s) {
      ShownIsRecent(now, s, r.interval);
    }
  }

  /** Right after a refresh at `now`, an unfiltered read returns the logged total of the last `n` buckets,
      although the expiry test alone would still admit a bucket exactly one interval old. */
  lemma {:induction false} FullRead<V(!new), E(!new)>(r: Ring<V>, log: seq<Entry<E>>, born: nat, floor: int,
                                                      p: Payload<V, E>, now: nat, read: V -> int, weight: E -> int)
    requires Represents(r, log, born, now, floor, p) && Additive(p, read, weight) && now < U64
    requires r.slots[SlotOf(now, r.len, |r.slots|)].start == Align(now, r.len)
    requires floor <= 0 || floor <= now - r.interval
    ensures SumOf(Values(r.slots, now, r.interval, Always()), read) ==
            Total(log, r.len, Align(now, r.len) - r.interval + r.len, Align(now, r.len), weight)
  {
    forall i | 0 <= i < |r.slots| && Shown(now, r.interval, Always())(r.slots[i].start)
      ensures r.slots[i].start >= floor
    {
      ShownIsRecent(now, r.slots[i].start, r.interval);
    }
    ReadIsHeld(r, log, born, now, floor, p, now, Always(), read, weight);
    FullHeld(r, log, born, now, weight);
  }

  lemma {:induction false} FullHeld<V, E>(r: Ring<V>, log: seq<Entry<E>>, born: nat, now: nat, weight: E -> int)
    requires Shape(r, born, now) && NotBehind(r, log, born, now) && now < U64
    requires r.slots[SlotOf(now, r.len, |r.slots|)].start == Align(now, r.len)
    ensures Held(log, r.slots, |r.slots|, r.len, Shown(now, r.interval, Always()), weight) ==
            Total(log, r.len, Align(now, r.len) - r.interval + r.len, Align(now, r.len), weight)
  {
    var hi := Align(now, r.len);
    forall j | 0 <= j < |log|
      ensures var b := r.slots[SlotOf(log[j].time, r.len, |r.slots|)];
              (hi - r.interval + r.len <= Align(log[j].time, r.len) <= hi <==>
               b.start == Align(log[j].time, r.len) && Shown(now, r.interval, Always())(b.start))
    {
      FullShows(r, log, born, now, j);
    }
    HeldIsTotal(log, r.slots, |r.slots|, r.len, Shown(now, r.interval, Always()), hi - r.interval + r.len, hi, weight);
  }

  lemma {:induction false} HeldAtMostTotal<V, E>(log: seq<Entry<E>>, slots: seq<BucketWrap<V>>, n: nat, len: nat,
                                                 shown: nat -> bool, lo: int, hi: int, weight: E -> int)
    requires len > 0 && n > 0
    requires forall j :: 0 <= j < |log| ==> weight(log[j].op) >= 0
    requires forall s: nat :: shown(s) ==> lo <= s <= hi
    ensures Held(log, slots, n, len, shown, weight) <= Total(log, len, lo, hi, weight)
  {
    if |log| > 0 {
      var init := log[..|log| - 1];
      assert forall j :: 0 <= j < |init| ==> init[j] == log[j];
      HeldAtMostTotal(init, slots, n, len, shown, lo, hi, weight);
    }
  }

  /** Whatever its range and time, a filtered read never exceeds the logged total of the range. */
  lemma {:induction false} RangeNeverOver<V(!new), E(!new)>(r: Ring<V>, log: seq<Entry<E>>, born: nat, last: nat,
                                                            floor: int, p: Payload<V, E>, now: nat, lo: int, hi: int,
                                                            read: V -> int, weight: E -> int)
    requires Represents(r, log, born, last, floor, p) && Additive(p, read, weight) && floor <= lo
    requires forall j :: 0 <= j < |log| ==> weight(log[j].op) >= 0
    ensures SumOf(Values(r.slots, now, r.interval, Between(lo, hi)), read) <= Total(log, r.len, lo, hi, weight)
  {
    ReadIsHeld(r, log, born, last, floor, p, now, Between(lo, hi), read, weight);
    HeldAtMostTotal(log, r.slots, |r.slots|, r.len, Shown(now, r.interval, Between(lo, hi)), lo, hi, weight);
  }

  lemma {:induction false} HeldExactIff<V, E>(log: seq<Entry<E>>, slots: seq<BucketWrap<V>>, n: nat, len: nat,
                                              shown: nat -> bool, lo: int, hi: int, weight: E -> int)
    requires len > 0 && |slots| == n > 0
    requires forall j :: 0 <= j < |log| ==> weight(log[j].op) >= 0
    requires forall s: nat :: shown(s) ==> lo <= s <= hi
    ensures Held(log, slots, n, len, shown, weight) == Total(log, len, lo, hi, weight) <==>
            forall j :: 0 <= j < |log| && lo <= Align(log[j].time, len) <= hi && weight(log[j].op) > 0 ==>
              slots[SlotOf(log[j].time, len, n)].start == Align(log[j].time, len) && shown(Align(log[j].time, len))
  {
    if |log| > 0 {
      var init, e := log[..|log| - 1], log[|log| - 1];
      assert log == init + [e];
      assert forall j :: 0 <= j < |init| ==> init[j] == log[j];
      HeldExactIff(init, slots, n, len, shown, lo, hi, weight);
      HeldAtMostTotal(init, slots, n, len, shown, lo, hi, weight);
      var start, w := Align(e.time, len), weight(e.op);
      var counted := if lo <= start <= hi then w else 0;
      var held := if slots[SlotOf(e.time, len, n)].start == start && shown(start) then w else 0;
      assert Total(log, len, lo, hi, weight) == Total(init, len, lo, hi, weight) + counted;
      assert Held(log, slots, n, len, shown, weight) == Held(init, slots, n, len, shown, weight) + held;
      assert log[|log| - 1] == e;
    }
  }

  /** A range read is exact if and only if every counted operation of the range still has its slot and is not
      expired. */
  lemma {:induction false} RangeExactIff<V(!new), E(!new)>(r: Ring<V>, log: seq<Entry<E>>, born: nat, last: nat,
                                                           floor: int, p: Payload<V, E>, now: nat, lo: int, hi: int,
                                                           read: V -> int, weight: E -> int)
    requires Represents(r, log, born, last, floor, p) && Additive(p, read, weight) && floor <= lo
    requires forall j :: 0 <= j < |log| ==> weight(log[j].op) >= 0
    ensures SumOf(Values(r.slots, now, r.interval, Between(lo, hi)), read) == Total(log, r.len, lo, hi, weight) <==>
            forall j :: 0 <= j < |log| && lo <= Align(log[j].time, r.len) <= hi && weight(log[j].op) > 0 ==>
              && r.slots[SlotOf(log[j].time, r.len, |r.slots|)].start == Align(log[j].time, r.len)
              && !Deprecated(now, Align(log[j].time, r.len), r.interval)
  {
    ReadIsHeld(r, log, born, last, floor, p, now, Between(lo, hi), read, weight);
    var shown := Shown(now, r.interval, Between(lo, hi));
    HeldExactIff(log, r.slots, |r.slots|, r.len, shown, lo, hi, weight);
    assert forall s: nat :: lo <= s <= hi ==> shown(s) == !Deprecated(now, s, r.interval);
  }

  // ---------------------------------------------------------------- largest values

  function MaxOf<V>(buckets: seq<BucketWrap<V>>, read: V -> int): int {
    if |buckets| == 0 then 0
    else
      var before, v := MaxOf(buckets[..|buckets| - 1], read), read(buckets[|buckets| - 1].value);
      if v > before then v else before
  }

  /** Largest weight, or 0, among the logged operations whose bucket starts in `lo..hi`. */
  ghost function Peak<E>(log: seq<Entry<E>>, len: nat, lo: int, hi: int, weight: E -> int): int
    requires len > 0
  {
    if |log| == 0 then 0
    else
      var e := log[|log| - 1];
      var before := Peak(log[..|log| - 1], len, lo, hi, weight);
      if lo <= Align(e.time, len) <= hi && weight(e.op) > before then weight(e.op) else before
  }

  /** `read` of a bucket is the largest `weight` applied to it, or 0. */
  ghost predicate Peaking<V(!new), E(!new)>(p: Payload<V, E>, read: V -> int, weight: E -> int) {
    && read(p.empty) == 0
    && forall v, e :: read(p.apply(v, e)) == if weight(e) > read(v) then weight(e) else read(v)
  }

  lemma {:induction false} FoldPeak<V(!new), E(!new)>(log: seq<Entry<E>>, start: nat, len: nat, p: Payload<V, E>,
                                                      read: V -> int, weight: E -> int)
    requires len > 0 && Peaking(p, read, weight)
    ensures read(Fold(log, start, len, p)) == Peak(log, len, start, start, weight)
  {
    if |log| > 0 {
      FoldPeak(log[..|log| - 1], start, len, p, read, weight);
    }
  }

  lemma {:induction false} PeakWidens<E>(log: seq<Entry<E>>, len: nat, lo: int, hi: int, lo': int, hi': int,
                                         weight: E -> int)
    requires len > 0 && lo' <= lo && hi <= hi'
    ensures Peak(log, len, lo, hi, weight) <= Peak(log, len, lo', hi', weight)
  {
    if |log| > 0 {
      PeakWidens(log[..|log| - 1], len, lo, hi, lo', hi', weight);
    }
  }

  lemma {:induction false} PeakLeast<E>(log: seq<Entry<E>>, len: nat, lo: int, hi: int, weight: E -> int, bound: int)
    requires len > 0 && bound >= 0
    requires forall j :: 0 <= j < |log| && lo <= Align(log[j].time, len) <= hi ==> weight(log[j].op) <= bound
    ensures Peak(log, len, lo, hi, weight) <= bound
  {
    if |log| > 0 {
      var init := log[..|log| - 1];
      assert forall j :: 0 <= j < |init| ==> init[j] == log[j];
      PeakLeast(init, len, lo, hi, weight, bound);
    }
  }

  lemma {:induction false} PeakAttains<E>(log: seq<Entry<E>>, len: nat, lo: int, hi: int, weight: E -> int, j: nat)
    requires len > 0 && j < |log| && lo <= Align(log[j].time, len) <= hi
    ensures weight(log[j].op) <= Peak(log, len, lo, hi, weight)
  {
    if j < |log| - 1 {
      PeakAttains(log[..|log| - 1], len, lo, hi, weight, j);
    }
  }

  lemma {:induction false} MaxOfValues<V>(slots: seq<BucketWrap<V>>, now: nat, interval: nat, pred: nat -> bool,
                                          read: V -> int, bound: int)
    requires bound >= 0
    requires forall i :: 0 <= i < |slots| && Shown(now, interval, pred)(slots[i].start) ==>
               read(slots[i].value) <= bound
    ensures 0 <= MaxOf(Values(slots, now, interval, pred), read) <= bound
    ensures forall i :: 0 <= i < |slots| && Shown(now, interval, pred)(slots[i].start) ==>
              read(slots[i].value) <= MaxOf(Values(slots, now, interval, pred), read)
  {
    if |slots| > 0 {
      var init, b := slots[..|slots| - 1], slots[|slots| - 1];
      MaxOfValues(init, now, interval, pred, read, bound);
      var before := Values(init, now, interval, pred);
      assert (before + [b])[..|before|] == before;
      assert before + [] == before;
      assert forall i :: 0 <= i < |init| ==> init[i] == slots[i];
    }
  }

  /** A slot shown by a range read holds no more than the peak of the range. */
  lemma {:induction false} SlotPeak<V(!new), E(!new)>(log: seq<Entry<E>>, start: nat, len: nat, p: Payload<V, E>,
                                                      lo: int, hi: int, read: V -> int, weight: E -> int)
    requires len > 0 && Peaking(p, read, weight) && lo <= start <= hi
    ensures read(Fold(log, start, len, p)) <= Peak(log, len, lo, hi, weight)
  {
    FoldPeak(log, start, len, p, read, weight);
    PeakWidens(log, len, start, start, lo, hi, weight);
  }

  /** The bucket of a logged operation holds at least its weight. */
  lemma {:induction false} OperationPeak<V(!new), E(!new)>(log: seq<Entry<E>>, j: nat, len: nat, p: Payload<V, E>,
                                                           read: V -> int, weight: E -> int)
    requires len > 0 && Peaking(p, read, weight) && j < |log|
    ensures weight(log[j].op) <= read(Fold(log, Align(log[j].time, len), len, p))
  {
    var s := Align(log[j].time, len);
    FoldPeak(log, s, len, p, read, weight);
    PeakAttains(log, len, s, s, weight, j);
  }

  /** As `WindowRead`, for a largest value instead of a total. */
  lemma {:induction false} WindowPeak<V(!new), E(!new)>(r: Ring<V>, log: seq<Entry<E>>, born: nat, last: nat,
                                                        floor: int, p: Payload<V, E>, now: nat, lo: int, hi: int,
                                                        read: V -> int, weight: E -> int)
    requires Represents(r, log, born, last, floor, p) && Peaking(p, read, weight)
    requires hi <= now < U64 && floor <= lo && InReach(r, born, last, now, lo)
    ensures MaxOf(Values(r.slots, now, r.interval, Between(lo, hi)), read) == Peak(log, r.len, lo, hi, weight)
  {
    var peak := Peak(log, r.len, lo, hi, weight);
    PeakNonNegative(log, r.len, lo, hi, weight);
    forall i | 0 <= i < |r.slots| && Shown(now, r.interval, Between(lo, hi))(r.slots[i].start)
      ensures read(r.slots[i].value) <= peak
    {
      SlotPeak(log, r.slots[i].start, r.len, p, lo, hi, read, weight);
    }
    MaxOfValues(r.slots, now, r.interval, Between(lo, hi), read, peak);
    var max := MaxOf(Values(r.slots, now, r.interval, Between(lo, hi)), read);
    forall j | 0 <= j < |log| && lo <= Align(log[j].time, r.len) <= hi
      ensures weight(log[j].op) <= max
    {
      WindowShows(r, log, born, last, now, lo, hi, j);
      OperationPeak(log, j, r.len, p, read, weight);
    }
    PeakLeast(log, r.len, lo, hi, weight, max);
  }

  lemma {:induction false} PeakNonNegative<E>(log: seq<Entry<E>>, len: nat, lo: int, hi: int, weight: E -> int)
    requires len > 0
    ensures Peak(log, len, lo, hi, weight) >= 0
  {
    if |log| > 0 {
      PeakNonNegative(log[..|log| - 1], len, lo, hi, weight);
    }
  }
}
