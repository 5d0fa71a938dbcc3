/** What a tick reports that comes too late: exactly which counts are missing. */
module LateTicks {
  import opened Aggregator
  import opened Clock
  import opened LeapRing
  import opened MetricBuckets
  import S = SlidingWindow

  /** The count of an event that a tick reports for a second; no record means 0. */
  function CountIn(collected: map<nat, Item>, sec: nat, event: int): int {
    if sec in collected then CountOf(collected[sec], event) else 0
  }

  /** A counted write of the second is out of reach at `now`: it has expired, or an access has recycled its slot. */
  ghost predicate Lost(run: seq<S.Access>, len: nat, n: nat, interval: nat, now: nat, sec: nat, event: int)
    requires len > 0 && n > 0
  {
    var log := S.Writes(run);
    exists j :: 0 <= j < |log| && SecondOf(log[j].time) == sec && Weight(event)(log[j].op) > 0 &&
                (now > Align(log[j].time, len) + interval || S.Recycled(run, len, n, log[j].time))
  }

  lemma {:induction false} HeldNotNegative<V, E>(log: seq<Entry<E>>, slots: seq<BucketWrap<V>>, n: nat, len: nat,
                                                 shown: nat -> bool, weight: E -> int)
    requires len > 0 && n > 0 && forall j :: 0 <= j < |log| ==> weight(log[j].op) >= 0
    ensures Held(log, slots, n, len, shown, weight) >= 0
  {
    if |log| > 0 {
      var init := log[..|log| - 1];
      assert forall j :: 0 <= j < |init| ==> init[j] == log[j];
      HeldNotNegative(init, slots, n, len, shown, weight);
    }
  }

  /** The sum of one second at `now`, whenever that is. */
  lemma {:induction false} SecondSum(r: Ring<MetricBucket>, run: seq<S.Access>, born: nat, last: nat, now: Millis,
                                     sec: nat, event: int)
    requires Represents(r, S.Writes(run), born, last, 0, METRIC) && S.Tracks(r, run, born) && last <= now
    requires 1000 % r.len == 0 && sec % 1000 == 0
    requires forall j :: 0 <= j < |S.Writes(run)| ==> Weight(event)(S.Writes(run)[j].op) >= 0
    ensures var sum := SumOf(Values(r.slots, now, r.interval, Between(sec, sec + 999)), Reading(event));
            var total := Total(S.Writes(run), 1000, sec, sec, Weight(event));
            && 0 <= sum <= total
            && (sum == total <==> !Lost(run, r.len, |r.slots|, r.interval, now, sec, event))
  {
    var log := S.Writes(run);
    CountersAdditive(event);
    SecondTotal(log, r.len, sec, Weight(event));
    RangeNeverOver(r, log, born, last, 0, METRIC, now, sec, sec + 999, Reading(event), Weight(event));
    ReadIsHeld(r, log, born, last, 0, METRIC, now, Between(sec, sec + 999), Reading(event), Weight(event));
    HeldNotNegative(log, r.slots, |r.slots|, r.len, Shown(now, r.interval, Between(sec, sec + 999)), Weight(event));
    RangeExactIff(r, log, born, last, 0, METRIC, now, sec, sec + 999, Reading(event), Weight(event));
    forall j | 0 <= j < |log|
      ensures SecondOf(log[j].time) == sec <==> sec <= Align(log[j].time, r.len) <= sec + 999
      ensures r.slots[SlotOf(log[j].time, r.len, |r.slots|)].start == Align(log[j].time, r.len) &&
              !Deprecated(now, Align(log[j].time, r.len), r.interval) <==>
              !(now > Align(log[j].time, r.len) + r.interval || S.Recycled(run, r.len, |r.slots|, log[j].time))
    {
      BucketInSecond(log[j].time, r.len, sec);
      InReachIff(r, run, born, last, now, j);
    }
  }

  lemma {:induction false} InReachIff(r: Ring<MetricBucket>, run: seq<S.Access>, born: nat, last: nat, now: Millis,
                                      j: nat)
    requires Represents(r, S.Writes(run), born, last, 0, METRIC) && S.Tracks(r, run, born) && last <= now
    requires j < |S.Writes(run)|
    ensures var t := S.Writes(run)[j].time;
            r.slots[SlotOf(t, r.len, |r.slots|)].start == Align(t, r.len) &&
            !Deprecated(now, Align(t, r.len), r.interval) <==>
            !(now > Align(t, r.len) + r.interval || S.Recycled(run, r.len, |r.slots|, t))
  {
    var log := S.Writes(run);
    S.HeldIff(r, run, log, born, last, j);
    AlignFacts(log[j].time, r.len);
    AgeOf(now, Align(log[j].time, r.len));
  }

  lemma {:induction false} CountOfItem(buckets: seq<BucketWrap<MetricBucket>>, event: int)
    requires PASS <= event <= ERROR
    ensures CountOf(ItemOf(buckets), event) == SumOf(buckets, Reading(event))
  {
    SumsAre(buckets);
  }

  lemma {:induction false} ActiveCount(buckets: seq<BucketWrap<MetricBucket>>, sec: nat, event: int)
    requires PASS <= event <= ERROR && SumOf(Group(buckets, sec), Reading(event)) >= 0
    ensures CountIn(ActiveItems(buckets), sec, event) == SumOf(Group(buckets, sec), Reading(event))
  {
    ActiveItemsAt(buckets, sec);
    CountOfItem(Group(buckets, sec), event);
  }

  /** What a tick makes of a second, as a count. */
  lemma {:induction false} CollectedCount(r: Ring<MetricBucket>, now: nat, lastFetch: int, to: nat, sec: nat,
                                          event: int)
    requires 0 < now && to % 1000 == 0 && sec % 1000 == 0 && lastFetch <= sec < to && PASS <= event <= ERROR
    requires SumOf(Values(r.slots, now, r.interval, Between(sec, sec + 999)), Reading(event)) >= 0
    ensures CountIn(Collect(r, now, lastFetch, to), sec, event) ==
            SumOf(Values(r.slots, now, r.interval, Between(sec, sec + 999)), Reading(event))
  {
    NextSecond(sec, to);
    GroupIsValues(r.slots, now, r.interval, lastFetch, to - 1, sec);
    ActiveCount(Values(r.slots, now, r.interval, Between(lastFetch, to - 1)), sec, event);
  }

  /** A tick at any time, early or late, after any writes and refreshes of the node: the count it reports for a second
      it covers is never too large, and complete if and only if no counted write of the second has expired or had its
      slot recycled. */
  lemma {:induction false} LateTickIff(n: nat, len: nat, born: nat, run: seq<S.Access>, r: Ring<MetricBucket>,
                                       now: Millis, lastFetch: int, sec: nat, event: int)
    requires Config(len, n * len, n) && 1000 % len == 0 && 0 < born
    requires S.InOrder(run, born) && S.LastTime(run, born) <= now && r == S.Play(NewRing(n, len, born, NEW_BUCKET), run)
    requires sec % 1000 == 0 && lastFetch <= sec < SecondOf(now) && PASS <= event <= ERROR
    requires forall j :: 0 <= j < |S.Writes(run)| ==> Weight(event)(S.Writes(run)[j].op) >= 0
    ensures var count := CountIn(Collect(r, now, lastFetch, SecondOf(now)), sec, event);
            var total := Total(S.Writes(run), 1000, sec, sec, Weight(event));
            && count <= total
            && (count == total <==> !Lost(run, len, n, r.interval, now, sec, event))
  {
    S.PlayRepresents(n, len, born, run);
    S.PlayTracks(n, len, born, run);
    SecondSum(r, run, born, S.LastTime(run, born), now, sec, event);
    AlignFacts(now, 1000);
    CollectedCount(r, now, lastFetch, SecondOf(now), sec, event);
  }
}
