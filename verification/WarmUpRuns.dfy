/** How the warm-up calculator warms up: where its lines are, what a second of traffic takes off, and which steady rates
    bring the allowed rate to the full threshold. */
module WarmUpRuns {
  import opened WarmUp

  // ---------------------------------------------------------------- the lines and the curve

  lemma {:induction false} ScaledOrder(x: real, y: real, d: real)
    requires d > 0.0
    ensures x <= y <==> x * d <= y * d
  {
    if x > y {
      assert (x - y) * d > 0.0;
    }
  }

  lemma {:induction false} FloorOfQuotient(n: int, total: real, d: real)
    requires d > 0.0
    ensures n <= (total / d).Floor <==> n as real * d <= total
  {
    var q := total / d;
    assert q * d == total;
    ScaledOrder(n as real, q, d);
  }

  /** The warning line is the largest whole number that `coldFactor - 1` times fits into what the threshold earns in the
      warm-up period. */
  lemma {:induction false} LineIsLargest(earned: real, coldFactor: nat, n: int)
    requires earned >= 0.0 && coldFactor > 1
    ensures n <= LineOf(earned, coldFactor) <==> n as real * (coldFactor - 1) as real <= earned
  {
    FloorOfQuotient(n, earned, (coldFactor - 1) as real);
  }

  /** The room above it is the largest that `coldFactor + 1` times fits into twice as much. */
  lemma {:induction false} RoomIsLargest(earned: real, coldFactor: nat, n: int)
    requires earned >= 0.0
    ensures n <= RoomOf(earned, coldFactor) <==> n as real * (coldFactor + 1) as real <= 2.0 * earned
  {
    FloorOfQuotient(n, 2.0 * earned, (coldFactor + 1) as real);
  }

  lemma {:induction false} CurveDelay(threshold: real, step: real, room: real, above: real, delay: real)
    requires threshold > 0.0 && room > 0.0 && step > 0.0 && above >= 0.0
    requires delay == above * (step / threshold / room) + 1.0 / threshold
    ensures room + step * above > 0.0
    ensures delay * (threshold * room) == room + step * above
  {
    Products(step, above);
    var q := step / threshold / room;
    assert q * room == step / threshold;
    assert q * room * threshold == step;
    assert 1.0 / threshold * threshold == 1.0;
    DistributeDelay(threshold, room, above, q, 1.0 / threshold);
    assert above * (q * room * threshold) == above * step == step * above;
  }

  lemma {:induction false} DistributeDelay(threshold: real, room: real, above: real, q: real, unit: real)
    requires unit * threshold == 1.0
    ensures (above * q + unit) * (threshold * room) == above * (q * room * threshold) + room
  {
    assert (above * q + unit) * (threshold * room) == above * q * (threshold * room) + unit * (threshold * room);
    assert unit * (threshold * room) == unit * threshold * room;
    assert above * q * (threshold * room) == above * (q * room * threshold);
  }

  lemma {:induction false} InverseOf(delay: real, top: real, bottom: real)
    requires delay > 0.0 && top > 0.0 && bottom > 0.0 && delay * top == bottom
    ensures 1.0 / delay == top / bottom
  {
    var r := top / bottom;
    assert r * bottom == top;
    assert r * delay * top == r * bottom;
    assert (r * delay - 1.0) * top == 0.0;
  }

  /** Above the warning line the allowed rate is the threshold, thinned out in proportion to the tokens above the
      line. */
  lemma {:induction false} RateCurve(c: Config, above: nat, room: real)
    requires c.Computed() && c.maxToken > c.warningToken && room == (c.maxToken - c.warningToken) as real
    ensures room + (c.coldFactor - 1) as real * above as real > 0.0
    ensures AllowedRate(c, c.warningToken + above) ==
            Number(c.threshold * room / (room + (c.coldFactor - 1) as real * above as real))
  {
    DelayPositive(c, above as real);
    CurveRate(c.threshold, (c.coldFactor - 1) as real, room, above as real,
              Delay(c.threshold, c.slope, above as real));
  }

  lemma {:induction false} CurveRate(threshold: real, step: real, room: real, above: real, delay: real)
    requires threshold > 0.0 && room > 0.0 && step > 0.0 && above >= 0.0 && delay > 0.0
    requires delay == above * (step / threshold / room) + 1.0 / threshold
    ensures room + step * above > 0.0
    ensures 1.0 / delay == threshold * room / (room + step * above)
  {
    CurveDelay(threshold, step, room, above, delay);
    assert threshold * room > 0.0;
    InverseOf(delay, threshold * room, room + step * above);
  }

  lemma {:induction false} LongerIsSlower(threshold: real, delay: real)
    requires threshold > 0.0 && delay > 1.0 / threshold
    ensures delay > 0.0 && 1.0 / delay != threshold
  {
    assert 1.0 / threshold * threshold == 1.0;
    assert (delay - 1.0 / threshold) * threshold > 0.0;
    assert 1.0 / delay * delay == 1.0;
  }

  /** The rate is full exactly up to the warning line. */
  lemma {:induction false} FullRateIff(c: Config, stored: int)
    requires c.Valid() && c.slope > 0.0 && c.maxToken > c.warningToken
    ensures AllowedRate(c, stored) == Number(c.threshold) <==> stored <= c.warningToken
  {
    if stored == c.warningToken {
      ReciprocalOf(1.0, c.threshold);
    } else if stored > c.warningToken {
      var above := (stored - c.warningToken) as real;
      assert above * c.slope > 0.0;
      LongerIsSlower(c.threshold, Delay(c.threshold, c.slope, above));
    }
  }

  // ---------------------------------------------------------------- one synchronisation

  function Second(now: nat): nat {
    now - now % 1000
  }

  /** At least the share of the threshold that the cold factor leaves, both cut to whole numbers. */
  predicate Busy(c: Config, passQps: real)
    requires c.Valid()
  {
    passQps >= (c.threshold.Floor / c.coldFactor) as real
  }

  function Max0(n: int): int {
    if n < 0 then 0 else n
  }

  /** In a new second, at or above the warning line, a busy rate takes off its whole part, down to 0, and adds
      nothing. */
  lemma {:induction false} BusySync(c: Config, b: Bucket, now: nat, passQps: real)
    requires c.Valid() && InRange(c, b) && b.storedTokens >= c.warningToken && Busy(c, passQps)
    requires Second(now) > b.lastFilledTime
    ensures SyncToken(c, b, now, passQps) == Bucket(Max0(b.storedTokens - passQps.Floor), Second(now))
  {
  }

  /** Below the line, or above it at a slower rate, the threshold's worth of the time since the last synchronisation is
      added first, as far as there is room. */
  lemma {:induction false} CoolingSync(c: Config, b: Bucket, now: nat, passQps: real)
    requires c.Valid() && InRange(c, b) && Second(now) > b.lastFilledTime
    requires b.storedTokens < c.warningToken || (b.storedTokens > c.warningToken && !Busy(c, passQps))
    ensures var earned := ((Second(now) - b.lastFilledTime) as real * c.threshold / 1000.0).Floor;
            var room := c.maxToken - b.storedTokens;
            SyncToken(c, b, now, passQps) ==
            Bucket(Max0(b.storedTokens + (if earned <= room then earned else room) - passQps.Floor), Second(now))
  {
    var gain := (Second(now) - b.lastFilledTime) as real * c.threshold / 1000.0;
    assert (b.storedTokens as real + gain).Floor == b.storedTokens + gain.Floor;
  }

  /** Within the second of the last synchronisation nothing changes. */
  lemma {:induction false} SameSecondSync(c: Config, b: Bucket, now: nat, passQps: real)
    requires c.Valid() && Second(now) <= b.lastFilledTime
    ensures SyncToken(c, b, now, passQps) == b
  {
  }

  // ---------------------------------------------------------------- busy runs

  /** The second of the last tick, or `start`. */
  function LastSecond(start: nat, ticks: seq<Tick>): nat {
    if |ticks| == 0 then start else Second(ticks[|ticks| - 1].now)
  }

  /** Each tick falls in a later second than the one before. */
  predicate NewSeconds(start: nat, ticks: seq<Tick>) {
    |ticks| > 0 ==>
      && NewSeconds(start, ticks[..|ticks| - 1])
      && Second(ticks[|ticks| - 1].now) > LastSecond(start, ticks[..|ticks| - 1])
  }

  /** Whole requests per second, added up over the ticks. */
  function Taken(ticks: seq<Tick>): int {
    if |ticks| == 0 then 0 else Taken(ticks[..|ticks| - 1]) + ticks[|ticks| - 1].passQps.Floor
  }

  predicate AllBusy(c: Config, ticks: seq<Tick>)
    requires c.Valid()
  {
    |ticks| > 0 ==> AllBusy(c, ticks[..|ticks| - 1]) && Busy(c, ticks[|ticks| - 1].passQps)
  }

  lemma {:induction false} BusyRate(c: Config, passQps: real)
    requires c.Valid() && Busy(c, passQps)
    ensures passQps.Floor >= 0
  {
    assert c.threshold.Floor / c.coldFactor >= 0;
  }

  /** Over any run of busy seconds, until the tokens fall below the warning line, exactly the requests that passed are
      taken off. */
  lemma {:induction false} BusyRun(c: Config, b: Bucket, ticks: seq<Tick>)
    requires c.Valid() && InRange(c, b) && NewSeconds(b.lastFilledTime, ticks) && AllBusy(c, ticks)
    requires |ticks| > 0 ==> b.storedTokens - Taken(ticks[..|ticks| - 1]) >= c.warningToken
    ensures Run(c, b, ticks) == Bucket(Max0(b.storedTokens - Taken(ticks)), LastSecond(b.lastFilledTime, ticks))
    ensures InRange(c, Run(c, b, ticks))
  {
    if |ticks| > 0 {
      var init, t := ticks[..|ticks| - 1], ticks[|ticks| - 1];
      if |init| > 0 {
        BusyRateOfLast(c, init);
      }
      BusyRun(c, b, init);
      BusyRate(c, t.passQps);
      BusySync(c, Run(c, b, init), t.now, t.passQps);
      SyncKeepsRange(c, Run(c, b, init), t.now, t.passQps);
    }
  }

  lemma {:induction false} BusyRateOfLast(c: Config, ticks: seq<Tick>)
    requires c.Valid() && AllBusy(c, ticks) && |ticks| > 0
    ensures Taken(ticks[..|ticks| - 1]) <= Taken(ticks)
  {
    BusyRate(c, ticks[|ticks| - 1].passQps);
  }

  // ---------------------------------------------------------------- steady traffic

  /** The same rate measured in each of a number of later seconds. */
  predicate Steady(start: nat, ticks: seq<Tick>, rate: real) {
    NewSeconds(start, ticks) && forall i :: 0 <= i < |ticks| ==> ticks[i].passQps == rate
  }

  lemma {:induction false} SteadyInit(start: nat, ticks: seq<Tick>, rate: real)
    requires Steady(start, ticks, rate) && |ticks| > 0
    ensures Steady(start, ticks[..|ticks| - 1], rate)
  {
    var init := ticks[..|ticks| - 1];
    assert forall i :: 0 <= i < |init| ==> init[i] == ticks[i];
  }

  lemma {:induction false} SteadyLast(start: nat, ticks: seq<Tick>, rate: real)
    requires Steady(start, ticks, rate) && |ticks| > 0
    ensures ticks[|ticks| - 1].passQps == rate
    ensures LastSecond(start, ticks) == Second(ticks[|ticks| - 1].now) > LastSecond(start, ticks[..|ticks| - 1])
  {
  }

  lemma {:induction false} SteadyBusy(c: Config, start: nat, ticks: seq<Tick>, rate: real)
    requires c.Valid() && Steady(start, ticks, rate) && Busy(c, rate)
    ensures AllBusy(c, ticks) && Taken(ticks) == |ticks| * rate.Floor
  {
    if |ticks| > 0 {
      SteadyInit(start, ticks, rate);
      SteadyBusy(c, start, ticks[..|ticks| - 1], rate);
      MulNext(|ticks| - 1, rate.Floor);
    }
  }

  lemma {:induction false} MulNext(n: int, d: int)
    ensures (n + 1) * d == n * d + d
  {
  }

  /** Number of seconds in which `whole` tokens each go from `above` over the line to below it. */
  function SecondsToWarm(above: nat, whole: nat): nat
    requires whole > 0
  {
    above / whole + 1
  }

  lemma {:induction false} MulUpTo(n: nat, m: nat, d: nat)
    requires n <= m
    ensures n * d <= m * d
  {
  }

  lemma {:induction false} FirstBelow(above: nat, whole: nat, n: nat)
    requires whole > 0
    ensures n * whole > above <==> n >= SecondsToWarm(above, whole)
  {
    var q := above / whole;
    assert q * whole <= above < q * whole + whole;
    MulNext(q, whole);
    if n > q {
      MulUpTo(q + 1, n, whole);
    } else {
      MulUpTo(n, q, whole);
    }
  }

  /** Steady busy traffic of at least one request per second takes the tokens below the warning line in exactly that
      many seconds, and not before; the rate is then the full threshold. */
  lemma {:induction false} WarmAfter(c: Config, b: Bucket, ticks: seq<Tick>, rate: real)
    requires c.Valid() && InRange(c, b) && b.storedTokens >= c.warningToken > 0
    requires Steady(b.lastFilledTime, ticks, rate) && Busy(c, rate) && rate >= 1.0
    requires |ticks| <= SecondsToWarm(b.storedTokens - c.warningToken, rate.Floor)
    ensures Run(c, b, ticks).storedTokens < c.warningToken <==>
            |ticks| == SecondsToWarm(b.storedTokens - c.warningToken, rate.Floor)
    ensures Run(c, b, ticks).storedTokens < c.warningToken ==>
              AllowedRate(c, Run(c, b, ticks).storedTokens) == Number(c.threshold)
  {
    var above, whole := b.storedTokens - c.warningToken, rate.Floor;
    SteadyBusy(c, b.lastFilledTime, ticks, rate);
    FirstBelow(above, whole, |ticks|);
    if |ticks| > 0 {
      SteadyInit(b.lastFilledTime, ticks, rate);
      SteadyBusy(c, b.lastFilledTime, ticks[..|ticks| - 1], rate);
      FirstBelow(above, whole, |ticks| - 1);
    }
    BusyRun(c, b, ticks);
  }

  // ---------------------------------------------------------------- which steady rates warm up

  /** `n` ticks in consecutive seconds. */
  function EachSecond(start: nat, rate: real, n: nat): (ticks: seq<Tick>)
    ensures |ticks| == n
  {
    if n == 0 then [] else EachSecond(start, rate, n - 1) + [Tick(start + 1000 * n, rate)]
  }

  lemma {:induction false} EachSecondSteady(start: nat, rate: real, n: nat)
    requires start % 1000 == 0
    ensures Steady(start, EachSecond(start, rate, n), rate)
    ensures LastSecond(start, EachSecond(start, rate, n)) == start + 1000 * n
  {
    if n > 0 {
      var ticks := EachSecond(start, rate, n);
      assert ticks[..n - 1] == EachSecond(start, rate, n - 1);
      EachSecondSteady(start, rate, n - 1);
    }
  }

  lemma {:induction false} LimitTimesFactor(threshold: nat, coldFactor: nat, limit: nat)
    requires coldFactor > 1 && limit == threshold / coldFactor
    ensures limit as real * (coldFactor + 1) as real <= 2.0 * threshold as real
  {
    assert limit * coldFactor <= threshold;
    MulUpTo(1, coldFactor, limit);
    MulNext(coldFactor, limit);
    assert (limit * (coldFactor + 1)) as real == limit as real * (coldFactor + 1) as real;
  }

  /** The room above the warning line holds what a slow rate takes off. */
  predicate Roomy(c: Config)
    requires c.Valid()
  {
    c.maxToken - c.warningToken >= c.threshold.Floor / c.coldFactor
  }

  lemma {:induction false} EarnsThreshold(threshold: real, period: nat)
    requires threshold > 0.0 && Earned(threshold, period) > 0.0
    ensures Earned(threshold, period) >= threshold
  {
    if period > 0 {
      MulMonotone(1.0, period as real, threshold);
    }
  }

  lemma {:induction false} RoomForSlow(threshold: real, earned: real, coldFactor: nat)
    requires threshold > 0.0 && coldFactor > 1 && earned >= threshold
    ensures RoomOf(earned, coldFactor) >= threshold.Floor / coldFactor
  {
    var limit := threshold.Floor / coldFactor;
    LimitTimesFactor(threshold.Floor, coldFactor, limit);
    RoomIsLargest(earned, coldFactor, limit);
  }

  lemma {:induction false} RoomMeansEarned(earned: real, coldFactor: nat)
    requires earned >= 0.0 && RoomOf(earned, coldFactor) > 0
    ensures earned > 0.0
  {
    RoomIsLargest(earned, coldFactor, 1);
  }

  lemma {:induction false} ComputedIsRoomy(c: Config)
    requires c.Computed() && c.maxToken > c.warningToken
    ensures Roomy(c)
  {
    var earned := Earned(c.threshold, c.warmUpPeriodSec);
    RoomMeansEarned(earned, c.coldFactor);
    EarnsThreshold(c.threshold, c.warmUpPeriodSec);
    RoomForSlow(c.threshold, earned, c.coldFactor);
  }

  lemma {:induction false} EarnedInSeconds(elapsed: nat, threshold: real)
    requires threshold > 0.0 && elapsed >= 1000
    ensures (elapsed as real * threshold / 1000.0).Floor >= threshold.Floor
  {
    MulMonotone(1000.0, elapsed as real, threshold);
  }

  lemma {:induction false} ColdArithmetic(line: int, max: int, stored: int, earned: int, taken: int, limit: int)
    requires 0 <= line < stored <= max && taken < limit <= earned && limit <= max - line
    ensures Max0(stored + (if earned <= max - stored then earned else max - stored) - taken) > line
  {
  }

  lemma {:induction false} SlowGain(c: Config, b: Bucket, now: nat, rate: real) returns (earned: int)
    requires c.Valid() && InRange(c, b) && b.storedTokens > c.warningToken && b.lastFilledTime % 1000 == 0
    requires !Busy(c, rate) && Second(now) > b.lastFilledTime
    ensures earned >= c.threshold.Floor
    ensures var room := c.maxToken - b.storedTokens;
            SyncToken(c, b, now, rate).storedTokens ==
            Max0(b.storedTokens + (if earned <= room then earned else room) - rate.Floor)
  {
    CoolingSync(c, b, now, rate);
    earned := ((Second(now) - b.lastFilledTime) as real * c.threshold / 1000.0).Floor;
    EarnedInSeconds(Second(now) - b.lastFilledTime, c.threshold);
  }

  lemma {:induction false} SlowSync(c: Config, b: Bucket, now: nat, rate: real)
    requires c.Valid() && Roomy(c) && InRange(c, b) && b.storedTokens > c.warningToken && b.lastFilledTime % 1000 == 0
    requires !Busy(c, rate) && Second(now) > b.lastFilledTime
    ensures SyncToken(c, b, now, rate).storedTokens > c.warningToken
  {
    var limit := c.threshold.Floor / c.coldFactor;
    DivAtMost(c.threshold.Floor, c.coldFactor);
    var earned := SlowGain(c, b, now, rate);
    ColdArithmetic(c.warningToken, c.maxToken, b.storedTokens, earned, rate.Floor, limit);
  }

  /** Above the line, a rate that is slow or below one request per second does not get down to the line. */
  lemma {:induction false} StaysCold(c: Config, b: Bucket, now: nat, rate: real) returns (b': Bucket)
    requires c.Valid() && Roomy(c) && InRange(c, b) && b.storedTokens > c.warningToken && b.lastFilledTime % 1000 == 0
    requires 0.0 <= rate && !(rate >= 1.0 && Busy(c, rate)) && Second(now) > b.lastFilledTime
    ensures b' == SyncToken(c, b, now, rate) && InRange(c, b') && b'.storedTokens > c.warningToken
    ensures b'.lastFilledTime == Second(now) && b'.lastFilledTime % 1000 == 0
  {
    b' := SyncToken(c, b, now, rate);
    SyncKeepsRange(c, b, now, rate);
    if Busy(c, rate) {
      BusySync(c, b, now, rate);
    } else {
      SlowSync(c, b, now, rate);
    }
  }

  lemma {:induction false} DivAtMost(n: nat, d: nat)
    requires d > 0
    ensures n / d <= n
  {
    MulUpTo(1, d, n / d);
  }

  lemma {:induction false} StaysColdRun(c: Config, b: Bucket, ticks: seq<Tick>, rate: real) returns (b': Bucket)
    requires c.Valid() && Roomy(c) && InRange(c, b) && b.storedTokens > c.warningToken && b.lastFilledTime % 1000 == 0
    requires 0.0 <= rate && !(rate >= 1.0 && Busy(c, rate)) && Steady(b.lastFilledTime, ticks, rate)
    ensures b' == Run(c, b, ticks) && InRange(c, b') && b'.storedTokens > c.warningToken
    ensures b'.lastFilledTime == LastSecond(b.lastFilledTime, ticks) && b'.lastFilledTime % 1000 == 0
  {
    b' := b;
    if |ticks| > 0 {
      var init, t := ticks[..|ticks| - 1], ticks[|ticks| - 1];
      SteadyInit(b.lastFilledTime, ticks, rate);
      SteadyLast(b.lastFilledTime, ticks, rate);
      var mid := StaysColdRun(c, b, init, rate);
      b' := StaysCold(c, mid, t.now, rate);
    }
  }

  ghost predicate WarmAt(c: Config, b: Bucket, ticks: seq<Tick>)
    requires c.Valid()
  {
    AllowedRate(c, Run(c, b, ticks).storedTokens) == Number(c.threshold)
  }

  /** Number of busy seconds that bring the tokens down to the line. */
  lemma {:induction false} WarmsInTime(c: Config, b: Bucket, rate: real) returns (ticks: seq<Tick>)
    requires c.Valid() && c.slope > 0.0 && InRange(c, b) && b.storedTokens > c.warningToken
    requires c.maxToken > c.warningToken
    requires b.lastFilledTime % 1000 == 0 && rate >= 1.0 && Busy(c, rate)
    ensures Steady(b.lastFilledTime, ticks, rate) && WarmAt(c, b, ticks)
  {
    var above, whole := b.storedTokens - c.warningToken, rate.Floor;
    var n := SecondsToWarm(above, whole);
    ticks := EachSecond(b.lastFilledTime, rate, n);
    EachSecondSteady(b.lastFilledTime, rate, n);
    SteadyBusy(c, b.lastFilledTime, ticks, rate);
    FirstBelow(above, whole, n);
    SteadyInit(b.lastFilledTime, ticks, rate);
    SteadyBusy(c, b.lastFilledTime, ticks[..n - 1], rate);
    FirstBelow(above, whole, n - 1);
    BusyRun(c, b, ticks);
    FullRateIff(c, Run(c, b, ticks).storedTokens);
  }

  /** Exactly when a resource warms up: some stretch of steady traffic brings the allowed rate to the full threshold if
      and only if it is there already, or the traffic is at least one request per second and at least the cold share of
      the threshold. Slower traffic, however long, leaves it cold. */
  lemma {:induction false} WarmsUpIff(c: Config, b: Bucket, rate: real)
    requires c.Computed() && InRange(c, b) && c.maxToken > c.warningToken && b.lastFilledTime % 1000 == 0
    requires 0.0 <= rate
    ensures (exists ticks :: Steady(b.lastFilledTime, ticks, rate) && WarmAt(c, b, ticks)) <==>
            || b.storedTokens <= c.warningToken
            || (rate >= 1.0 && rate >= (c.threshold.Floor / c.coldFactor) as real)
  {
    ComputedIsRoomy(c);
    SlopePositive(c);
    if b.storedTokens <= c.warningToken {
      FullRateIff(c, b.storedTokens);
      assert Steady(b.lastFilledTime, [], rate) && WarmAt(c, b, []);
    } else if rate >= 1.0 && Busy(c, rate) {
      var ticks := WarmsInTime(c, b, rate);
    } else {
      forall ticks | Steady(b.lastFilledTime, ticks, rate)
        ensures !WarmAt(c, b, ticks)
      {
        var b' := StaysColdRun(c, b, ticks, rate);
        FullRateIff(c, b'.storedTokens);
      }
    }
  }
}
