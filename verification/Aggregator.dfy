/** The metric log aggregator: once per new second it collects, from every node, the buckets that started since
    the last fetch, and turns them into one record per second. */
module Aggregator {
  import opened Clock
  import opened LeapRing
  import opened LeapArrays
  import opened MetricBuckets

  datatype Item = Item(pass: int, block: int, complete: int, error: int, avgRt: int, concurrency: int)

  function SecondOf(t: nat): nat {
    Align(t, 1000)
  }

  /** One record from totals of the five events and the largest concurrency. */
  function MakeItem(pass: int, block: int, complete: int, error: int, rt: int, concurrency: int): Item {
    Item(pass, block, complete, error, if complete > 0 then rt / complete else rt, concurrency)
  }

  predicate Active(i: Item) {
    i.pass > 0 || i.block > 0 || i.complete > 0 || i.error > 0 || i.avgRt > 0 || i.concurrency > 0
  }

  // ---------------------------------------------------------------- collecting from one array

  /** The buckets of one second, in order. */
  function Group(buckets: seq<BucketWrap<MetricBucket>>, sec: nat): seq<BucketWrap<MetricBucket>> {
    if |buckets| == 0 then []
    else
      var b := buckets[|buckets| - 1];
      Group(buckets[..|buckets| - 1], sec) + (if SecondOf(b.start) == sec then [b] else [])
  }

  /** Running totals over buckets. */
  datatype Sums = Sums(pass: int, block: int, complete: int, error: int, rt: int, concurrency: int)

  function AddBucket(s: Sums, b: MetricBucket): Sums {
    Sums(s.pass + Get(b, PASS), s.block + Get(b, BLOCK), s.complete + Get(b, COMPLETE), s.error + Get(b, ERROR),
         s.rt + Get(b, RT), if b.maxConcurrency > s.concurrency then b.maxConcurrency else s.concurrency)
  }

  function SumsOf(buckets: seq<BucketWrap<MetricBucket>>): Sums {
    if |buckets| == 0 then Sums(0, 0, 0, 0, 0, 0)
    else AddBucket(SumsOf(buckets[..|buckets| - 1]), buckets[|buckets| - 1].value)
  }

  function ItemOf(buckets: seq<BucketWrap<MetricBucket>>): Item {
    var s := SumsOf(buckets);
    MakeItem(s.pass, s.block, s.complete, s.error, s.rt, s.concurrency)
  }

  function Seconds(buckets: seq<BucketWrap<MetricBucket>>): set<nat> {
    if |buckets| == 0 then {} else Seconds(buckets[..|buckets| - 1]) + {SecondOf(buckets[|buckets| - 1].start)}
  }

  /** The active records of the seconds of the first `n` buckets. */
  function ItemsUpTo(buckets: seq<BucketWrap<MetricBucket>>, n: nat): map<nat, Item>
    requires n <= |buckets|
  {
    if n == 0 then map[]
    else
      var sec := SecondOf(buckets[n - 1].start);
      var item := ItemOf(Group(buckets, sec));
      if Active(item) then ItemsUpTo(buckets, n - 1)[sec := item] else ItemsUpTo(buckets, n - 1)
  }

  /** The active records of the given buckets, by second. */
  function ActiveItems(buckets: seq<BucketWrap<MetricBucket>>): map<nat, Item> {
    ItemsUpTo(buckets, |buckets|)
  }

  /** What one tick collects from one array: the buckets not expired that start from the last fetch to the current
      second. */
  function Collect(r: Ring<MetricBucket>, now: nat, lastFetch: int, current: nat): map<nat, Item> {
    if now == 0 then map[] else ActiveItems(Values(r.slots, now, r.interval, Between(lastFetch, current - 1)))
  }

  // ---------------------------------------------------------------- the meaning of a record

  /** The record of second `sec` read off the log, by the times of the operations themselves. */
  ghost function RecordOf(log: seq<Entry<MetricOp>>, sec: nat): Item {
    MakeItem(Total(log, 1000, sec, sec, Weight(PASS)), Total(log, 1000, sec, sec, Weight(BLOCK)),
             Total(log, 1000, sec, sec, Weight(COMPLETE)), Total(log, 1000, sec, sec, Weight(ERROR)),
             Total(log, 1000, sec, sec, Weight(RT)), Peak(log, 1000, sec, sec, Concurrency()))
  }

  /** A grid line does not separate a time from the start of its bucket. */
  lemma {:induction false} GridLine(t: nat, x: nat, len: nat)
    requires len > 0 && x % len == 0
    ensures x <= t <==> x <= Align(t, len)
  {
    AlignFacts(t, len);
    if x <= t {
      AlignMonotone(x, t, len);
    }
  }

  /** Buckets whose length divides a second never straddle two seconds. */
  lemma {:induction false} BucketInSecond(t: nat, len: nat, sec: nat)
    requires len > 0 && 1000 % len == 0 && sec % 1000 == 0
    ensures SecondOf(t) == sec <==> sec <= Align(t, len) <= sec + 999
  {
    SecondUnique(t, sec);
    Grid(sec, len);
    Grid(sec + 1000, len);
    GridLine(t, sec, len);
    GridLine(t, sec + 1000, len);
  }

  lemma {:induction false} Grid(sec: nat, len: nat)
    requires len > 0 && 1000 % len == 0 && sec % 1000 == 0
    ensures sec % len == 0
  {
    ExactQuotient(1000, len);
    var k := (sec / 1000) * (1000 / len);
    assert sec == k * len + 0;
    DivUnique(k, len, 0);
  }

  lemma {:induction false} SecondUnique(t: nat, sec: nat)
    requires sec % 1000 == 0
    ensures SecondOf(t) == sec <==> sec <= t <= sec + 999
  {
  }

  lemma {:induction false} NextSecond(sec: nat, later: nat)
    requires sec % 1000 == 0 && later % 1000 == 0 && sec < later
    ensures sec + 1000 <= later
  {
  }

  lemma {:induction false} SecondTotal(log: seq<Entry<MetricOp>>, len: nat, sec: nat, weight: MetricOp -> int)
    requires len > 0 && 1000 % len == 0 && sec % 1000 == 0
    ensures Total(log, 1000, sec, sec, weight) == Total(log, len, sec, sec + 999, weight)
    ensures Peak(log, 1000, sec, sec, weight) == Peak(log, len, sec, sec + 999, weight)
  {
    if |log| > 0 {
      SecondTotal(log[..|log| - 1], len, sec, weight);
      BucketInSecond(log[|log| - 1].time, len, sec);
    }
  }

  // ---------------------------------------------------------------- one tick is exact

  /** Grouping the collected buckets by second is the same as reading that second alone. */
  lemma {:induction false} GroupIsValues(slots: seq<BucketWrap<MetricBucket>>, now: nat, interval: nat, lo: int,
                                         hi: int, sec: nat)
    requires sec % 1000 == 0 && lo <= sec && sec + 999 <= hi
    ensures Group(Values(slots, now, interval, Between(lo, hi)), sec) ==
            Values(slots, now, interval, Between(sec, sec + 999))
  {
    if |slots| > 0 {
      var init, b := slots[..|slots| - 1], slots[|slots| - 1];
      GroupIsValues(init, now, interval, lo, hi, sec);
      var before := Values(init, now, interval, Between(lo, hi));
      SecondUnique(b.start, sec);
      assert (before + [b])[..|before|] == before;
      assert before + [] == before;
    }
  }

  lemma {:induction false} SumsAre(buckets: seq<BucketWrap<MetricBucket>>)
    ensures var s := SumsOf(buckets);
            && s.pass == SumOf(buckets, Reading(PASS)) && s.block == SumOf(buckets, Reading(BLOCK))
            && s.complete == SumOf(buckets, Reading(COMPLETE)) && s.error == SumOf(buckets, Reading(ERROR))
            && s.rt == SumOf(buckets, Reading(RT)) && s.concurrency == MaxOf(buckets, ReadConcurrency())
  {
    if |buckets| > 0 {
      SumsAre(buckets[..|buckets| - 1]);
    }
  }

  /** A second that a tick covers is read with its full logged totals. */
  lemma {:induction false} SecondExact(r: Ring<MetricBucket>, log: seq<Entry<MetricOp>>, born: nat, last: nat,
                                       now: Millis, sec: nat)
    requires Represents(r, log, born, last, 0, METRIC) && 1000 % r.len == 0
    requires sec % 1000 == 0 && sec + 999 <= now && InReach(r, born, last, now, sec)
    ensures ItemOf(Values(r.slots, now, r.interval, Between(sec, sec + 999))) == RecordOf(log, sec)
  {
    SumsAre(Values(r.slots, now, r.interval, Between(sec, sec + 999)));
    SumExact(r, log, born, last, now, sec, PASS);
    SumExact(r, log, born, last, now, sec, BLOCK);
    SumExact(r, log, born, last, now, sec, COMPLETE);
    SumExact(r, log, born, last, now, sec, ERROR);
    SumExact(r, log, born, last, now, sec, RT);
    MaxExact(r, log, born, last, now, sec);
  }

  lemma {:induction false} MaxExact(r: Ring<MetricBucket>, log: seq<Entry<MetricOp>>, born: nat, last: nat, now: Millis,
                                    sec: nat)
    requires Represents(r, log, born, last, 0, METRIC) && 1000 % r.len == 0
    requires sec % 1000 == 0 && sec + 999 <= now && InReach(r, born, last, now, sec)
    ensures MaxOf(Values(r.slots, now, r.interval, Between(sec, sec + 999)), ReadConcurrency()) ==
            Peak(log, 1000, sec, sec, Concurrency())
  {
    ConcurrencyPeaking();
    WindowPeak(r, log, born, last, 0, METRIC, now, sec, sec + 999, ReadConcurrency(), Concurrency());
    SecondTotal(log, r.len, sec, Concurrency());
  }

  lemma {:induction false} SumExact(r: Ring<MetricBucket>, log: seq<Entry<MetricOp>>, born: nat, last: nat, now: Millis,
                                    sec: nat, event: int)
    requires Represents(r, log, born, last, 0, METRIC) && 1000 % r.len == 0
    requires sec % 1000 == 0 && sec + 999 <= now && InReach(r, born, last, now, sec)
    ensures SumOf(Values(r.slots, now, r.interval, Between(sec, sec + 999)), Reading(event)) ==
            Total(log, 1000, sec, sec, Weight(event))
  {
    CountersAdditive(event);
    WindowRead(r, log, born, last, 0, METRIC, now, sec, sec + 999, Reading(event), Weight(event));
    SecondTotal(log, r.len, sec, Weight(event));
  }

  lemma {:induction false} SecondMissing(buckets: seq<BucketWrap<MetricBucket>>, sec: nat)
    ensures sec !in Seconds(buckets) ==> Group(buckets, sec) == []
  {
    if |buckets| > 0 && sec !in Seconds(buckets) {
      SecondMissing(buckets[..|buckets| - 1], sec);
    }
  }

  lemma {:induction false} ItemsUpToAt(buckets: seq<BucketWrap<MetricBucket>>, n: nat, sec: nat)
    requires n <= |buckets|
    ensures sec in ItemsUpTo(buckets, n) <==> sec in Seconds(buckets[..n]) && Active(ItemOf(Group(buckets, sec)))
    ensures sec in ItemsUpTo(buckets, n) ==> ItemsUpTo(buckets, n)[sec] == ItemOf(Group(buckets, sec))
  {
    if n > 0 {
      ItemsUpToAt(buckets, n - 1, sec);
      assert buckets[..n][..n - 1] == buckets[..n - 1];
    }
  }

  lemma {:induction false} ActiveItemsAt(buckets: seq<BucketWrap<MetricBucket>>, sec: nat)
    ensures sec in ActiveItems(buckets) <==> Active(ItemOf(Group(buckets, sec)))
    ensures sec in ActiveItems(buckets) ==> ActiveItems(buckets)[sec] == ItemOf(Group(buckets, sec))
  {
    ItemsUpToAt(buckets, |buckets|, sec);
    assert buckets[..|buckets|] == buckets;
    SecondMissing(buckets, sec);
    assert !Active(ItemOf([]));
  }

  /** The record collected for a second inside the range. */
  lemma {:induction false} InRangeExact(r: Ring<MetricBucket>, log: seq<Entry<MetricOp>>, born: nat, last: nat,
                                        now: Millis, lo: int, hi: int, sec: nat)
    requires Represents(r, log, born, last, 0, METRIC) && 1000 % r.len == 0
    requires sec % 1000 == 0 && lo <= sec && sec + 999 <= hi <= now && InReach(r, born, last, now, lo)
    ensures ItemOf(Group(Values(r.slots, now, r.interval, Between(lo, hi)), sec)) == RecordOf(log, sec)
  {
    GroupIsValues(r.slots, now, r.interval, lo, hi, sec);
    SecondExact(r, log, born, last, now, sec);
  }

  /** The record that a collection up to `to` makes for `sec`: the logged one inside the range, an inactive one
      outside. */
  lemma {:induction false} GroupExact(r: Ring<MetricBucket>, log: seq<Entry<MetricOp>>, born: nat, last: nat,
                                      now: Millis, lo: int, to: nat, sec: nat)
    requires Represents(r, log, born, last, 0, METRIC) && 1000 % r.len == 0
    requires (lo == -1 || lo % 1000 == 0) && to % 1000 == 0 && to <= now && sec % 1000 == 0
    requires InReach(r, born, last, now, lo)
    ensures lo <= sec < to ==>
              ItemOf(Group(Values(r.slots, now, r.interval, Between(lo, to - 1)), sec)) == RecordOf(log, sec)
    ensures !(lo <= sec < to) ==> Group(Values(r.slots, now, r.interval, Between(lo, to - 1)), sec) == []
  {
    var hi := to - 1;
    if lo <= sec < to {
      NextSecond(sec, to);
      InRangeExact(r, log, born, last, now, lo, hi, sec);
    } else {
      GroupEmpty(r.slots, now, r.interval, lo, hi, sec);
    }
  }

  lemma {:induction false} GroupEmpty(slots: seq<BucketWrap<MetricBucket>>, now: nat, interval: nat, lo: int, hi: int,
                                      sec: nat)
    requires sec % 1000 == 0 && (lo == -1 || lo % 1000 == 0) && !(lo <= sec <= hi)
    ensures Group(Values(slots, now, interval, Between(lo, hi)), sec) == []
  {
    if |slots| > 0 {
      var init, b := slots[..|slots| - 1], slots[|slots| - 1];
      GroupEmpty(init, now, interval, lo, hi, sec);
      var before := Values(init, now, interval, Between(lo, hi));
      assert SecondOf(b.start) == sec ==> !Between(lo, hi)(b.start) by {
        SecondUnique(b.start, sec);
        if lo > sec {
          NextSecond(sec, lo);
        }
      }
      assert (before + [b])[..|before|] == before;
      assert before + [] == before;
    }
  }

  /** What a tick that covers `from..to` reports for `sec`. */
  ghost predicate CollectedExactly(c: map<nat, Item>, log: seq<Entry<MetricOp>>, from: int, to: nat, sec: nat) {
    && (sec in c <==> from <= sec < to && Active(RecordOf(log, sec)))
    && (sec in c ==> c[sec] == RecordOf(log, sec))
  }

  lemma {:induction false} ItemsExactly(buckets: seq<BucketWrap<MetricBucket>>, log: seq<Entry<MetricOp>>, lo: int,
                                        to: nat, sec: nat)
    requires lo <= sec < to ==> ItemOf(Group(buckets, sec)) == RecordOf(log, sec)
    requires !(lo <= sec < to) ==> Group(buckets, sec) == []
    ensures CollectedExactly(ActiveItems(buckets), log, lo, to, sec)
  {
    ActiveItemsAt(buckets, sec);
    assert !Active(ItemOf([]));
  }

  /** One tick reports exactly the active seconds from the last fetch up to the current second, each in full. */
  lemma {:induction false} CollectExact(r: Ring<MetricBucket>, log: seq<Entry<MetricOp>>, born: nat, last: nat,
                                        now: Millis, lastFetch: int, current: nat, sec: nat)
    requires Represents(r, log, born, last, 0, METRIC) && 1000 % r.len == 0 && 0 < now
    requires current % 1000 == 0 && current <= now && (lastFetch == -1 || lastFetch % 1000 == 0) && sec % 1000 == 0
    requires InReach(r, born, last, now, lastFetch)
    ensures CollectedExactly(Collect(r, now, lastFetch, current), log, lastFetch, current, sec)
  {
    var values := Values(r.slots, now, r.interval, Between(lastFetch, current - 1));
    GroupExact(r, log, born, last, now, lastFetch, current, sec);
    ItemsExactly(values, log, lastFetch, current, sec);
    assert Collect(r, now, lastFetch, current) == ActiveItems(values);
  }

  // ---------------------------------------------------------------- runs

  /** A write, a refresh of the current bucket before some other read, or a tick. */
  datatype Event = Write(now: Millis, op: MetricOp) | Refresh(now: Millis) | Tick(now: Millis)

  /** One node, its log, and everything emitted for it so far. */
  datatype State = State(ring: Ring<MetricBucket>, log: seq<Entry<MetricOp>>, lastFetch: int,
                         emitted: seq<map<nat, Item>>)

  function Step(s: State, e: Event): State
    requires s.ring.len > 0 && |s.ring.slots| > 0
  {
    match e
    case Write(now, op) => s.(ring := Record(s.ring, now, op, METRIC), log := s.log + [Entry(now, op)])
    case Refresh(now) =>
      if Touch(s.ring, now, NEW_BUCKET).Some? then s.(ring := Touch(s.ring, now, NEW_BUCKET).value) else s
    case Tick(now) =>
      var current := SecondOf(now);
      if current <= s.lastFetch then s
      else s.(lastFetch := current, emitted := s.emitted + [Collect(s.ring, now, s.lastFetch, current)])
  }

  function Run(s: State, events: seq<Event>): (s': State)
    requires s.ring.len > 0 && |s.ring.slots| > 0
    ensures s'.ring.len == s.ring.len && |s'.ring.slots| == |s.ring.slots|
  {
    if |events| == 0 then s else Step(Run(s, events[..|events| - 1]), events[|events| - 1])
  }

  /** A tick must come before the buckets since the last fetch, or since creation, go out of reach. */
  predicate InTime(s: State, born: nat, e: Event)
    requires s.ring.len > 0
  {
    e.Tick? ==>
      e.now < (if s.lastFetch < Align(born, s.ring.len) then Align(born, s.ring.len) else s.lastFetch) + s.ring.interval
  }

  /** A run from `s`: the clock does not go back, and every tick is in time. */
  ghost predicate Legal(s: State, born: nat, events: seq<Event>)
    requires s.ring.len > 0 && |s.ring.slots| > 0
  {
    && (forall i :: 0 <= i < |events| ==> born <= events[i].now)
    && (forall i, j :: 0 <= i < j < |events| ==> events[i].now <= events[j].now)
    && (forall i :: 0 <= i < |events| ==> InTime(Run(s, events[..i]), born, events[i]))
  }

  /** All records emitted for one second, over all ticks. */
  function RecordsFor(emitted: seq<map<nat, Item>>, sec: nat): seq<Item> {
    if |emitted| == 0 then []
    else
      var m := emitted[|emitted| - 1];
      RecordsFor(emitted[..|emitted| - 1], sec) + (if sec in m then [m[sec]] else [])
  }

  /** Each fetched second has been emitted once with its full totals, or not at all if nothing happened in it;
      nothing has been emitted for the seconds still to come. */
  ghost predicate Reported(s: State, sec: nat) {
    RecordsFor(s.emitted, sec) ==
    if sec < s.lastFetch && Active(RecordOf(s.log, sec)) then [RecordOf(s.log, sec)] else []
  }

  ghost predicate Inv(s: State, born: nat, last: nat) {
    && Represents(s.ring, s.log, born, last, 0, METRIC)
    && 1000 % s.ring.len == 0
    && s.lastFetch <= last
    && (s.lastFetch == -1 || s.lastFetch % 1000 == 0)
    && forall sec: nat :: sec % 1000 == 0 ==> Reported(s, sec)
  }

  /** An operation outside the second leaves its record alone. */
  lemma {:induction false} RecordUnchanged(log: seq<Entry<MetricOp>>, e: Entry<MetricOp>, sec: nat)
    requires SecondOf(e.time) != sec
    ensures RecordOf(log + [e], sec) == RecordOf(log, sec)
  {
    assert (log + [e])[..|log|] == log;
  }

  lemma {:induction false} WriteReports(s: State, s': State, e: Entry<MetricOp>, sec: nat)
    requires Reported(s, sec) && sec % 1000 == 0 && s.lastFetch <= e.time
    requires s.lastFetch == -1 || s.lastFetch % 1000 == 0
    requires s'.log == s.log + [e] && s'.lastFetch == s.lastFetch && s'.emitted == s.emitted
    ensures Reported(s', sec)
  {
    if sec < s.lastFetch {
      NextSecond(sec, s.lastFetch);
      SecondUnique(e.time, sec);
      RecordUnchanged(s.log, e, sec);
    }
  }

  lemma {:induction false} WriteKeepsInv(s: State, born: nat, last: nat, e: Event)
    requires Inv(s, born, last) && e.Write? && last <= e.now && 0 < e.now
    ensures Inv(Step(s, e), born, e.now)
  {
    RecordRepresents(s.ring, s.log, born, last, 0, METRIC, e.now, e.op);
    forall sec: nat | sec % 1000 == 0
      ensures Reported(Step(s, e), sec)
    {
      WriteReports(s, Step(s, e), Entry(e.now, e.op), sec);
    }
  }

  lemma {:induction false} RefreshKeepsInv(s: State, born: nat, last: nat, e: Event)
    requires Inv(s, born, last) && e.Refresh? && last <= e.now && 0 < e.now
    ensures Inv(Step(s, e), born, e.now)
  {
    TouchRepresents(s.ring, s.log, born, last, 0, METRIC, e.now);
    forall sec: nat | sec % 1000 == 0
      ensures Reported(Step(s, e), sec)
    {
      assert Reported(s, sec);
    }
  }

  lemma {:induction false} TickReports(s: State, s': State, c: map<nat, Item>, current: nat, sec: nat)
    requires Reported(s, sec) && s.lastFetch < current && CollectedExactly(c, s.log, s.lastFetch, current, sec)
    requires s' == s.(lastFetch := current, emitted := s.emitted + [c])
    ensures Reported(s', sec)
  {
    assert (s.emitted + [c])[..|s.emitted|] == s.emitted;
  }

  lemma {:induction false} TickKeepsInv(s: State, born: nat, last: nat, e: Event)
    requires Inv(s, born, last) && e.Tick? && last <= e.now && 0 < e.now && InTime(s, born, e)
    ensures Inv(Step(s, e), born, e.now)
  {
    LaterLast(s.ring, s.log, born, last, e.now, 0, METRIC);
    var current := SecondOf(e.now);
    AlignFacts(e.now, 1000);
    if s.lastFetch < current {
      AlignFacts(e.now, s.ring.len);
      assert InReach(s.ring, born, e.now, e.now, s.lastFetch);
      forall sec: nat | sec % 1000 == 0
        ensures Reported(Step(s, e), sec)
      {
        CollectExact(s.ring, s.log, born, e.now, e.now, s.lastFetch, current, sec);
        TickReports(s, Step(s, e), Collect(s.ring, e.now, s.lastFetch, current), current, sec);
      }
    }
  }

  function ClockAfter(events: seq<Event>, born: nat): nat {
    if |events| == 0 then born else events[|events| - 1].now
  }

  /** Exactly-once reporting: after every legal run from a state in which it holds, every second is reported once,
      in full, and by a single tick. */
  lemma {:induction false} ExactlyOnce(s: State, born: nat, events: seq<Event>)
    requires Inv(s, born, born) && 0 < born && Legal(s, born, events)
    ensures Inv(Run(s, events), born, ClockAfter(events, born))
  {
    if |events| > 0 {
      var init, e := events[..|events| - 1], events[|events| - 1];
      forall i | 0 <= i < |init|
        ensures events[..i] == init[..i]
      {
      }
      ExactlyOnce(s, born, init);
      assert init == events[..|events| - 1];
      if e.Write? {
        WriteKeepsInv(Run(s, init), born, ClockAfter(init, born), e);
      } else if e.Refresh? {
        RefreshKeepsInv(Run(s, init), born, ClockAfter(init, born), e);
      } else {
        TickKeepsInv(Run(s, init), born, ClockAfter(init, born), e);
      }
    }
  }

  /** A node created between two ticks starts with nothing reported and nothing to report. */
  lemma {:induction false} NewNodeInv(n: nat, len: nat, born: Millis, lastFetch: int)
    requires Config(len, n * len, n) && 1000 % len == 0
    requires lastFetch == -1 || (lastFetch % 1000 == 0 && 0 <= lastFetch <= born)
    ensures Inv(State(NewRing(n, len, born, NEW_BUCKET), [], lastFetch, []), born, born)
  {
    NewRepresents(n, len, born, METRIC);
  }

  lemma {:induction false} TotalSign(log: seq<Entry<MetricOp>>, sec: nat, weight: MetricOp -> int)
    requires forall j :: 0 <= j < |log| ==> weight(log[j].op) >= 0
    ensures Total(log, 1000, sec, sec, weight) >= 0
  {
    if |log| > 0 {
      var init := log[..|log| - 1];
      assert forall j :: 0 <= j < |init| ==> init[j] == log[j];
      TotalSign(init, sec, weight);
    }
  }

  /** The counts added for one event in the second that starts at `sec`, read off the log. */
  ghost function CountedIn(log: seq<Entry<MetricOp>>, event: int, sec: nat): int {
    if |log| == 0 then 0
    else
      var e := log[|log| - 1];
      CountedIn(log[..|log| - 1], event, sec) +
      (if e.op.AddCount? && e.op.event == event && sec <= e.time <= sec + 999 then e.op.count else 0)
  }

  lemma {:induction false} CountedIsTotal(log: seq<Entry<MetricOp>>, event: int, sec: nat)
    requires 0 <= event <= 4 && sec % 1000 == 0
    ensures Total(log, 1000, sec, sec, Weight(event)) == CountedIn(log, event, sec)
  {
    if |log| > 0 {
      CountedIsTotal(log[..|log| - 1], event, sec);
      SecondUnique(log[|log| - 1].time, sec);
    }
  }

  lemma {:induction false} PeakIsUpper(log: seq<Entry<MetricOp>>, sec: nat, j: nat)
    requires j < |log| && sec % 1000 == 0
    ensures 0 <= Peak(log, 1000, sec, sec, Concurrency())
    ensures log[j].op.UpdateConcurrency? && sec <= log[j].time <= sec + 999 ==>
              log[j].op.concurrency <= Peak(log, 1000, sec, sec, Concurrency())
  {
    SecondUnique(log[|log| - 1].time, sec);
    if |log| > 1 {
      PeakIsUpper(log[..|log| - 1], sec, if j < |log| - 1 then j else 0);
    } else {
      assert log[..0] == [];
    }
  }

  lemma {:induction false} PeakIsReached(log: seq<Entry<MetricOp>>, sec: nat) returns (j: int)
    requires Peak(log, 1000, sec, sec, Concurrency()) > 0 && sec % 1000 == 0
    ensures 0 <= j < |log| && log[j].op.UpdateConcurrency? && sec <= log[j].time <= sec + 999
    ensures log[j].op.concurrency == Peak(log, 1000, sec, sec, Concurrency())
  {
    SecondUnique(log[|log| - 1].time, sec);
    if Peak(log[..|log| - 1], 1000, sec, sec, Concurrency()) == Peak(log, 1000, sec, sec, Concurrency()) {
      j := PeakIsReached(log[..|log| - 1], sec);
    } else {
      j := |log| - 1;
    }
  }

  /** What a record says about its second: the counts of events 0 to 3, the response times of event 4 shared out evenly
      over the completions, and the largest concurrency reported, or 0. */
  lemma {:induction false} RecordMeans(log: seq<Entry<MetricOp>>, sec: nat)
    requires sec % 1000 == 0
    ensures RecordOf(log, sec).pass == CountedIn(log, 0, sec) && RecordOf(log, sec).block == CountedIn(log, 1, sec)
    ensures RecordOf(log, sec).complete == CountedIn(log, 2, sec) && RecordOf(log, sec).error == CountedIn(log, 3, sec)
    ensures var (share, n) := (RecordOf(log, sec).avgRt, CountedIn(log, 2, sec));
            if n > 0 then share * n <= CountedIn(log, 4, sec) < share * n + n else share == CountedIn(log, 4, sec)
    ensures forall j :: 0 <= j < |log| && log[j].op.UpdateConcurrency? && sec <= log[j].time <= sec + 999 ==>
                          log[j].op.concurrency <= RecordOf(log, sec).concurrency
    ensures RecordOf(log, sec).concurrency != 0 ==>
              exists j :: 0 <= j < |log| && log[j].op.UpdateConcurrency? && sec <= log[j].time <= sec + 999 &&
                          log[j].op.concurrency == RecordOf(log, sec).concurrency
  {
    CountedIsTotal(log, 0, sec);
    CountedIsTotal(log, 1, sec);
    CountedIsTotal(log, 2, sec);
    CountedIsTotal(log, 3, sec);
    CountedIsTotal(log, 4, sec);
    forall j | 0 <= j < |log| && log[j].op.UpdateConcurrency? && sec <= log[j].time <= sec + 999
      ensures log[j].op.concurrency <= RecordOf(log, sec).concurrency
    {
      PeakIsUpper(log, sec, j);
    }
    if |log| > 0 {
      PeakIsUpper(log, sec, 0);
    }
    if RecordOf(log, sec).concurrency != 0 {
      var j := PeakIsReached(log, sec);
    }
  }

  /** A second without a record lost nothing: with counts that are not negative, a record is left out if and only if all
      totals of its second are zero and no concurrency above 0 was reported in it. */
  lemma {:induction false} InactiveIffEmpty(log: seq<Entry<MetricOp>>, sec: nat)
    requires forall j, e :: 0 <= j < |log| ==> Weight(e)(log[j].op) >= 0
    ensures !Active(RecordOf(log, sec)) <==>
            && (forall event :: 0 <= event <= 4 ==> Total(log, 1000, sec, sec, Weight(event)) == 0)
            && Peak(log, 1000, sec, sec, Concurrency()) <= 0
  {
    forall event
      ensures Total(log, 1000, sec, sec, Weight(event)) >= 0
    {
      TotalSign(log, sec, Weight(event));
    }
    if !Active(RecordOf(log, sec)) {
      forall event | 0 <= event <= 4
        ensures Total(log, 1000, sec, sec, Weight(event)) == 0
      {
        assert event == PASS || event == BLOCK || event == COMPLETE || event == ERROR || event == RT;
      }
    } else if Peak(log, 1000, sec, sec, Concurrency()) <= 0 {
      assert exists event :: 0 <= event <= 4 && Total(log, 1000, sec, sec, Weight(event)) != 0 by {
        assert Total(log, 1000, sec, sec, Weight(PASS)) > 0 || Total(log, 1000, sec, sec, Weight(BLOCK)) > 0
               || Total(log, 1000, sec, sec, Weight(COMPLETE)) > 0 || Total(log, 1000, sec, sec, Weight(ERROR)) > 0
               || Total(log, 1000, sec, sec, Weight(RT)) > 0;
      }
    }
  }

  // ---------------------------------------------------------------- conservation

  function CountOf(i: Item, event: int): int {
    if event == PASS then i.pass
    else if event == BLOCK then i.block
    else if event == COMPLETE then i.complete
    else i.error
  }

  function CountOfAll(items: seq<Item>, event: int): int {
    if |items| == 0 then 0 else CountOfAll(items[..|items| - 1], event) + CountOf(items[|items| - 1], event)
  }

  /** Start of second number `i`. */
  function SecondNo(i: nat): nat {
    1000 * i
  }

  /** Everything reported for the first `seconds` seconds. */
  function ReportedCount(emitted: seq<map<nat, Item>>, seconds: nat, event: int): int {
    if seconds == 0 then 0
    else ReportedCount(emitted, seconds - 1, event) + CountOfAll(RecordsFor(emitted, SecondNo(seconds - 1)), event)
  }

  lemma {:induction false} TotalSplit(log: seq<Entry<MetricOp>>, sec: nat, weight: MetricOp -> int)
    requires sec % 1000 == 0
    ensures Total(log, 1000, 0, sec + 999, weight) ==
            Total(log, 1000, 0, sec - 1, weight) + Total(log, 1000, sec, sec, weight)
  {
    if |log| > 0 {
      TotalSplit(log[..|log| - 1], sec, weight);
      var start := SecondOf(log[|log| - 1].time);
      AlignFacts(log[|log| - 1].time, 1000);
      if sec < start {
        NextSecond(sec, start);
      }
    }
  }

  lemma {:induction false} TotalBeforeStart(log: seq<Entry<MetricOp>>, weight: MetricOp -> int)
    ensures Total(log, 1000, 0, -1, weight) == 0
  {
    if |log| > 0 {
      TotalBeforeStart(log[..|log| - 1], weight);
    }
  }

  lemma {:induction false} SecondCount(s: State, sec: nat, event: int)
    requires Reported(s, sec) && sec < s.lastFetch && PASS <= event <= ERROR
    requires forall j, e :: 0 <= j < |s.log| ==> Weight(e)(s.log[j].op) >= 0
    ensures CountOfAll(RecordsFor(s.emitted, sec), event) == Total(s.log, 1000, sec, sec, Weight(event))
  {
    var record := RecordOf(s.log, sec);
    if Active(record) {
      assert [record][..0] == [];
    } else {
      InactiveIffEmpty(s.log, sec);
    }
  }

  /** What was logged in the first `k` seconds. */
  ghost function LoggedBefore(log: seq<Entry<MetricOp>>, event: int): nat -> int {
    (k: nat) => Total(log, 1000, 0, SecondNo(k) - 1, Weight(event))
  }

  lemma {:induction false} ReportedAddsUp(emitted: seq<map<nat, Item>>, logged: nat -> int, k: nat, event: int)
    requires logged(0) == 0
    requires forall i: nat :: i < k ==> logged(i + 1) - logged(i) == CountOfAll(RecordsFor(emitted, SecondNo(i)), event)
    ensures ReportedCount(emitted, k, event) == logged(k)
  {
    if k > 0 {
      ReportedAddsUp(emitted, logged, k - 1, event);
      assert logged(k - 1 + 1) == logged(k);
    }
  }

  lemma {:induction false} LoggedNext(log: seq<Entry<MetricOp>>, i: nat, event: int)
    ensures LoggedBefore(log, event)(i + 1) - LoggedBefore(log, event)(i) ==
            Total(log, 1000, SecondNo(i), SecondNo(i), Weight(event))
  {
    WholeSecond(i);
    TotalSplit(log, SecondNo(i), Weight(event));
    assert SecondNo(i + 1) - 1 == SecondNo(i) + 999;
  }

  lemma {:induction false} WholeSecond(i: nat)
    ensures SecondNo(i) % 1000 == 0
  {
    DivUnique(i, 1000, 0);
  }

  /** Conservation: after every legal run, nothing is lost and nothing counted twice. The counts in all records emitted
      for the first `k` fetched seconds add up to what was logged in those seconds. */
  lemma {:induction false} Conservation(s: State, born: nat, events: seq<Event>, s': State, k: nat, event: int)
    requires Inv(s, born, born) && 0 < born && Legal(s, born, events) && s' == Run(s, events)
    requires SecondNo(k) <= s'.lastFetch && PASS <= event <= ERROR
    requires forall j, e :: 0 <= j < |s'.log| ==> Weight(e)(s'.log[j].op) >= 0
    ensures ReportedCount(s'.emitted, k, event) == LoggedBefore(s'.log, event)(k)
  {
    ExactlyOnce(s, born, events);
    var logged := LoggedBefore(s'.log, event);
    TotalBeforeStart(s'.log, Weight(event));
    forall i: nat | i < k
      ensures logged(i + 1) - logged(i) == CountOfAll(RecordsFor(s'.emitted, SecondNo(i)), event)
    {
      WholeSecond(i);
      assert Reported(s', SecondNo(i));
      SecondCount(s', SecondNo(i), event);
      LoggedNext(s'.log, i, event);
    }
    ReportedAddsUp(s'.emitted, logged, k, event);
  }

  // ---------------------------------------------------------------- the aggregation loops

  method MetricItemFromBuckets(ws: seq<BucketWrap<MetricBucket>>) returns (item: Item)
    ensures item == ItemOf(ws)
  {
    var pass, block, complete, error, allRt, concurrency := 0, 0, 0, 0, 0, 0;
    for i := 0 to |ws|
      invariant Sums(pass, block, complete, error, allRt, concurrency) == SumsOf(ws[..i])
    {
      assert ws[..i + 1][..i] == ws[..i];
      var mb := ws[i].value;
      pass := pass + Get(mb, PASS);
      block := block + Get(mb, BLOCK);
      error := error + Get(mb, ERROR);
      complete := complete + Get(mb, COMPLETE);
      if mb.maxConcurrency > concurrency {
        concurrency := mb.maxConcurrency;
      }
      allRt := allRt + Get(mb, RT);
    }
    assert ws[..|ws|] == ws;
    item := Item(pass, block, complete, error, if complete > 0 then allRt / complete else allRt, concurrency);
  }

  /** Puts every bucket on the list of its second. */
  method GroupBySecond(ws: seq<BucketWrap<MetricBucket>>) returns (wm: map<nat, seq<BucketWrap<MetricBucket>>>)
    ensures wm.Keys == Seconds(ws)
    ensures forall sec :: sec in wm ==> wm[sec] == Group(ws, sec)
  {
    wm := map[];
    for i := 0 to |ws|
      invariant wm.Keys == Seconds(ws[..i])
      invariant forall sec :: sec in wm ==> wm[sec] == Group(ws[..i], sec)
    {
      var w := ws[i];
      var secStart := w.start - w.start % 1000;
      assert ws[..i + 1][..i] == ws[..i];
      if secStart in wm {
        wm := wm[secStart := wm[secStart] + [w]];
      } else {
        SecondMissing(ws[..i], secStart);
        wm := wm[secStart := [w]];
      }
    }
    assert ws[..|ws|] == ws;
  }

  /** The records of the groups, without the inactive ones. */
  method ActiveRecords(wm: map<nat, seq<BucketWrap<MetricBucket>>>) returns (m: map<nat, Item>)
    ensures forall sec :: sec in m <==> sec in wm && Active(ItemOf(wm[sec]))
    ensures forall sec :: sec in m ==> m[sec] == ItemOf(wm[sec])
  {
    m := map[];
    var todo := wm.Keys;
    while todo != {}
      invariant todo <= wm.Keys
      invariant forall sec :: sec in m <==> sec in wm && sec !in todo && Active(ItemOf(wm[sec]))
      invariant forall sec :: sec in m ==> m[sec] == ItemOf(wm[sec])
      decreases |todo|
    {
      var ts :| ts in todo;
      var item := MetricItemFromBuckets(wm[ts]);
      if Active(item) {
        m := m[ts := item];
      }
      todo := todo - {ts};
    }
  }

  lemma {:induction false} SameItems(ws: seq<BucketWrap<MetricBucket>>, wm: map<nat, seq<BucketWrap<MetricBucket>>>,
                                     m: map<nat, Item>)
    requires wm.Keys == Seconds(ws) && forall sec :: sec in wm ==> wm[sec] == Group(ws, sec)
    requires forall sec :: sec in m <==> sec in wm && Active(ItemOf(wm[sec]))
    requires forall sec :: sec in m ==> m[sec] == ItemOf(wm[sec])
    ensures m == ActiveItems(ws)
  {
    forall sec
      ensures sec in m <==> sec in ActiveItems(ws)
      ensures sec in m ==> m[sec] == ActiveItems(ws)[sec]
    {
      ActiveItemsAt(ws, sec);
      SecondMissing(ws, sec);
      assert !Active(ItemOf([]));
    }
  }

  /** The active records of one array for the buckets from the last fetch to the current second. */
  method CurrentMetricItems(arr: LeapArray<MetricBucket>, now: Millis, lastFetch: int, current: nat)
    returns (m: map<nat, Item>)
    requires arr.Valid()
    ensures m == Collect(arr.Contents(), now, lastFetch, current)
  {
    var ws := arr.ValuesConditional(now, Between(lastFetch, current - 1));
    var wm := GroupBySecond(ws);
    m := ActiveRecords(wm);
    SameItems(ws, wm, m);
  }

  /** The records of second `t` of all nodes, in node order, each with its node. */
  function Tagged(collects: seq<map<nat, Item>>, t: nat): seq<(nat, Item)> {
    if |collects| == 0 then []
    else
      Tagged(collects[..|collects| - 1], t) + TagOf(collects[|collects| - 1], |collects| - 1, t)
  }

  function TagOf(m: map<nat, Item>, node: nat, t: nat): seq<(nat, Item)> {
    if t in m then [(node, m[t])] else []
  }

  function Lookup(mm: map<nat, seq<(nat, Item)>>, t: nat): seq<(nat, Item)> {
    if t in mm then mm[t] else []
  }

  /** What a tick writes is, node by node, what it collected. */
  lemma {:induction false} TaggedExact(collects: seq<map<nat, Item>>, t: nat, node: nat, item: Item)
    ensures (node, item) in Tagged(collects, t) <==>
            node < |collects| && t in collects[node] && collects[node][t] == item
  {
    if |collects| > 0 {
      TaggedExact(collects[..|collects| - 1], t, node, item);
    }
  }

  method AggregateIntoMap(mm: map<nat, seq<(nat, Item)>>, metrics: map<nat, Item>, node: nat)
    returns (r: map<nat, seq<(nat, Item)>>)
    ensures forall t :: Lookup(r, t) == Lookup(mm, t) + TagOf(metrics, node, t)
  {
    r := mm;
    var todo := metrics.Keys;
    while todo != {}
      invariant todo <= metrics.Keys
      invariant forall t :: t in todo ==> Lookup(r, t) == Lookup(mm, t)
      invariant forall t :: t !in todo ==> Lookup(r, t) == Lookup(mm, t) + TagOf(metrics, node, t)
      decreases |todo|
    {
      var t :| t in todo;
      var items := if t in r then r[t] + [(node, metrics[t])] else [(node, metrics[t])];
      assert items == Lookup(mm, t) + TagOf(metrics, node, t);
      r := r[t := items];
      todo := todo - {t};
    }
  }

  /** What one tick over all nodes hands to the writer. */
  ghost predicate Aggregates(maps: map<nat, seq<(nat, Item)>>, collects: seq<map<nat, Item>>) {
    forall t :: Lookup(maps, t) == Tagged(collects, t)
  }

  class MetricAggregator {
    var lastFetchTime: int
    /** Every map handed to the log writer so far. */
    var written: seq<map<nat, seq<(nat, Item)>>>

    constructor ()
      ensures lastFetchTime == -1 && written == []
    {
      lastFetchTime := -1;
      written := [];
    }

    /** One tick over all nodes. */
    method DoAggregate(now: Millis, nodes: seq<LeapArray<MetricBucket>>)
      requires forall i :: 0 <= i < |nodes| ==> nodes[i].Valid()
      modifies this
      ensures SecondOf(now) <= old(lastFetchTime) ==> lastFetchTime == old(lastFetchTime) && written == old(written)
      ensures SecondOf(now) > old(lastFetchTime) ==>
                && lastFetchTime == SecondOf(now)
                && Wrote(old(written), written, old(Collected(nodes, now, lastFetchTime, SecondOf(now))))
    {
      var curTime := now - now % 1000;
      if curTime <= lastFetchTime {
        return;
      }
      var maps := CollectAll(now, nodes, lastFetchTime, curTime);
      lastFetchTime := curTime;
      if maps != map[] {
        written := written + [maps];
      }
      assert Writes(old(written), written, maps);
    }
  }

  /** The merged records are handed to the writer, unless there are none. */
  ghost predicate Writes(before: seq<map<nat, seq<(nat, Item)>>>, after: seq<map<nat, seq<(nat, Item)>>>,
                         maps: map<nat, seq<(nat, Item)>>) {
    after == if maps == map[] then before else before + [maps]
  }

  ghost predicate Wrote(before: seq<map<nat, seq<(nat, Item)>>>, after: seq<map<nat, seq<(nat, Item)>>>,
                        collects: seq<map<nat, Item>>) {
    exists maps :: Writes(before, after, maps) && Aggregates(maps, collects)
  }

  /** What a collection of each node's array yields, in node order. */
  ghost function Collected(nodes: seq<LeapArray<MetricBucket>>, now: nat, lastFetch: int,
                           current: nat): seq<map<nat, Item>>
    reads set i | 0 <= i < |nodes| :: nodes[i].data
  {
    if |nodes| == 0 then []
    else
      Collected(nodes[..|nodes| - 1], now, lastFetch, current) +
      [Collect(nodes[|nodes| - 1].Contents(), now, lastFetch, current)]
  }

  method CollectAll(now: Millis, nodes: seq<LeapArray<MetricBucket>>, lastFetch: int, curTime: nat)
    returns (maps: map<nat, seq<(nat, Item)>>)
    requires forall i :: 0 <= i < |nodes| ==> nodes[i].Valid()
    ensures Aggregates(maps, Collected(nodes, now, lastFetch, curTime))
  {
    maps := map[];
    ghost var collects := [];
    for i := 0 to |nodes|
      invariant |collects| == i && collects == Collected(nodes[..i], now, lastFetch, curTime)
      invariant Aggregates(maps, collects)
    {
      assert nodes[..i + 1][..i] == nodes[..i];
      var metrics := CurrentMetricItems(nodes[i], now, lastFetch, curTime);
      maps := AggregateIntoMap(maps, metrics, i);
      TaggedNext(collects, metrics);
      collects := collects + [metrics];
    }
    assert nodes[..|nodes|] == nodes;
  }

  lemma {:induction false} TaggedNext(collects: seq<map<nat, Item>>, m: map<nat, Item>)
    ensures forall t :: Tagged(collects + [m], t) == Tagged(collects, t) + TagOf(m, |collects|, t)
  {
    assert (collects + [m])[..|collects|] == collects;
  }
}
