/** The warm-up token calculator: the allowed rate falls as tokens pile up while the resource is idle. */
module WarmUp {

  const DEFAULT_COLD_FACTOR := 3

  /** What the constructor stores: a cold factor of 0 or 1 has been replaced by the default, the two lines are whole
      numbers of tokens, and the slope is the increase of the request interval per token above the warning line. */
  datatype Config = Config(threshold: real, warmUpPeriodSec: nat, coldFactor: nat,
                           warningToken: nat, maxToken: nat, slope: real)
  {
    predicate Valid() {
      threshold > 0.0 && coldFactor > 1 && warningToken <= maxToken && slope >= 0.0
    }

    /** The lines and the slope are those of the rule. */
    predicate Computed() {
      && Valid()
      && warningToken == LineOf(Earned(threshold, warmUpPeriodSec), coldFactor)
      && maxToken - warningToken == RoomOf(Earned(threshold, warmUpPeriodSec), coldFactor)
      && slope == SlopeOf(threshold, coldFactor, maxToken - warningToken)
    }
  }

  lemma {:induction false} Quotients(a: real, b: real)
    requires a >= 0.0 && b > 0.0
    ensures a / b >= 0.0
  {
  }

  /** Tokens earned in the warm-up period. */
  function Earned(threshold: real, warmUpPeriodSec: nat): (earned: real)
    requires threshold >= 0.0
    ensures earned >= 0.0
  {
    Products(warmUpPeriodSec as real, threshold);
    warmUpPeriodSec as real * threshold
  }

  /** The warning line, and the room between it and the maximum, when `earned` tokens are earned in the warm-up
      period. */
  function LineOf(earned: real, coldFactor: nat): nat
    requires earned >= 0.0 && coldFactor > 1
  {
    Quotients(earned, (coldFactor - 1) as real);
    (earned / (coldFactor - 1) as real).Floor
  }

  function RoomOf(earned: real, coldFactor: nat): nat
    requires earned >= 0.0
  {
    Quotients(2.0 * earned, (1 + coldFactor) as real);
    (2.0 * earned / (1 + coldFactor) as real).Floor
  }

  /** Without room above the warning line, or without a threshold, the slope is not a number; 0 stands for it. */
  function SlopeOf(threshold: real, coldFactor: nat, room: nat): (slope: real)
    requires threshold >= 0.0 && coldFactor > 1
    ensures slope >= 0.0
  {
    if threshold == 0.0 || room == 0 then 0.0
    else
      Quotients((coldFactor - 1) as real, threshold);
      Quotients((coldFactor - 1) as real / threshold, room as real);
      (coldFactor - 1) as real / threshold / room as real
  }

  function NewConfig(threshold: real, warmUpPeriodSec: nat, warmUpColdFactor: nat): (c: Config)
    requires threshold >= 0.0
    ensures c.coldFactor == if warmUpColdFactor > 1 then warmUpColdFactor else 3
    ensures c.threshold == threshold && c.warmUpPeriodSec == warmUpPeriodSec
    ensures threshold > 0.0 ==> c.Computed()
  {
    var coldFactor := if warmUpColdFactor <= 1 then DEFAULT_COLD_FACTOR else warmUpColdFactor;
    var earned := Earned(threshold, warmUpPeriodSec);
    var line, room := LineOf(earned, coldFactor), RoomOf(earned, coldFactor);
    Config(threshold, warmUpPeriodSec, coldFactor, line, line + room, SlopeOf(threshold, coldFactor, room))
  }

  /** A float result that may fail to be a number. */
  datatype Float = Number(value: real) | NaN

  /** Request interval at `above` tokens over the warning line. */
  function Delay(threshold: real, slope: real, above: real): real
    requires threshold > 0.0
  {
    above * slope + 1.0 / threshold
  }

  /** The rate that `stored` tokens allow. Without room above the warning line the formula multiplies zero by
      infinity. */
  function AllowedRate(c: Config, stored: int): Float
    requires c.Valid()
  {
    var rest := if stored < 0 then 0 else stored;
    if rest < c.warningToken then Number(c.threshold)
    else if c.maxToken == c.warningToken then NaN
    else
      var above := (rest - c.warningToken) as real;
      DelayPositive(c, above);
      Number(1.0 / Delay(c.threshold, c.slope, above))
  }

  // ---------------------------------------------------------------- token bookkeeping

  datatype Bucket = Bucket(storedTokens: int, lastFilledTime: nat)

  /** Tokens after cooling down until `now`, a whole second. */
  function CoolDownTokens(c: Config, b: Bucket, now: nat, passQps: real): int
    requires c.Valid() && b.lastFilledTime <= now
  {
    var filled := (b.storedTokens as real + (now - b.lastFilledTime) as real * c.threshold / 1000.0).Floor;
    var value := if b.storedTokens < c.warningToken then filled
                 else if b.storedTokens > c.warningToken &&
                         passQps < (c.threshold.Floor / c.coldFactor) as real then filled
                 else b.storedTokens;
    if value <= c.maxToken then value else c.maxToken
  }

  /** Once per second: cool down, then take off the rate of the previous window. */
  function SyncToken(c: Config, b: Bucket, now: nat, passQps: real): Bucket
    requires c.Valid()
  {
    var current := now - now % 1000;
    if current <= b.lastFilledTime then b
    else
      var left := CoolDownTokens(c, b, current, passQps) - passQps.Floor;
      Bucket(if left < 0 then 0 else left, current)
  }

  predicate InRange(c: Config, b: Bucket)
    requires c.Valid()
  {
    0 <= b.storedTokens <= c.maxToken
  }

  lemma {:induction false} Products(a: real, b: real)
    requires a >= 0.0 && b >= 0.0
    ensures a * b >= 0.0
  {
  }

  lemma {:induction false} FillGrows(stored: int, elapsed: nat, threshold: real)
    requires threshold > 0.0
    ensures (stored as real + elapsed as real * threshold / 1000.0).Floor >= stored
  {
    Products(elapsed as real, threshold);
  }

  lemma {:induction false} SyncKeepsRange(c: Config, b: Bucket, now: nat, passQps: real)
    requires c.Valid() && InRange(c, b) && passQps >= 0.0
    ensures InRange(c, SyncToken(c, b, now, passQps))
  {
    var current := now - now % 1000;
    if current > b.lastFilledTime {
      FillGrows(b.storedTokens, current - b.lastFilledTime, c.threshold);
    }
  }

  datatype Tick = Tick(now: nat, passQps: real)

  function Run(c: Config, b: Bucket, ticks: seq<Tick>): Bucket
    requires c.Valid()
  {
    if |ticks| == 0 then b
    else
      var t := ticks[|ticks| - 1];
      SyncToken(c, Run(c, b, ticks[..|ticks| - 1]), t.now, t.passQps)
  }

  /** In every reachable state the stored tokens lie between 0 and the maximum. */
  lemma {:induction false} RunKeepsRange(c: Config, ticks: seq<Tick>)
    requires c.Valid() && forall i :: 0 <= i < |ticks| ==> ticks[i].passQps >= 0.0
    ensures InRange(c, Run(c, Bucket(0, 0), ticks))
  {
    if |ticks| > 0 {
      var init := ticks[..|ticks| - 1];
      assert forall i :: 0 <= i < |init| ==> init[i] == ticks[i];
      RunKeepsRange(c, init);
      SyncKeepsRange(c, Run(c, Bucket(0, 0), init), ticks[|ticks| - 1].now, ticks[|ticks| - 1].passQps);
    }
  }

  // ---------------------------------------------------------------- the envelope

  lemma {:induction false} SlopePositive(c: Config)
    requires c.Computed() && c.maxToken > c.warningToken
    ensures c.slope > 0.0
  {
  }

  lemma {:induction false} DelayPositive(c: Config, above: real)
    requires c.Valid() && above >= 0.0
    ensures Delay(c.threshold, c.slope, above) >= 1.0 / c.threshold > 0.0
  {
    Products(above, c.slope);
  }

  lemma {:induction false} MulMonotone(a: real, b: real, s: real)
    requires a <= b && s >= 0.0
    ensures a * s <= b * s
  {
  }

  lemma {:induction false} DelayMonotone(threshold: real, slope: real, a: real, b: real)
    requires threshold > 0.0 && slope >= 0.0 && a <= b
    ensures Delay(threshold, slope, a) <= Delay(threshold, slope, b)
  {
    MulMonotone(a, b, slope);
  }

  /** At the maximum the slope term makes up exactly the cold factor. */
  lemma {:induction false} FullDelay(c: Config)
    requires c.Computed() && c.maxToken > c.warningToken
    ensures Delay(c.threshold, c.slope, (c.maxToken - c.warningToken) as real) == c.coldFactor as real / c.threshold
  {
    var room := (c.maxToken - c.warningToken) as real;
    var step := (c.coldFactor - 1) as real / c.threshold;
    assert room * (step / room) == step;
  }

  /** `1/x` reverses the order of positive numbers. */
  lemma {:induction false} Reciprocals(x: real, y: real)
    requires 0.0 < x <= y
    ensures 0.0 < 1.0 / y <= 1.0 / x
  {
    assert 1.0 / x == y / (x * y) && 1.0 / y == x / (x * y);
  }

  lemma {:induction false} ReciprocalOf(a: real, b: real)
    requires a > 0.0 && b > 0.0
    ensures a / b > 0.0 && 1.0 / (a / b) == b / a
  {
    var q := a / b;
    assert q * b == a;
    assert q * (b / a) == 1.0;
  }

  /** A delay between 1/threshold and coldFactor/threshold is a rate between threshold/coldFactor and threshold. */
  lemma {:induction false} DelayToRate(threshold: real, coldFactor: real, delay: real)
    requires threshold > 0.0 && coldFactor > 0.0 && 1.0 / threshold <= delay <= coldFactor / threshold
    ensures delay > 0.0 && threshold / coldFactor <= 1.0 / delay <= threshold
  {
    ReciprocalOf(1.0, threshold);
    ReciprocalOf(coldFactor, threshold);
    Reciprocals(1.0 / threshold, delay);
    Reciprocals(delay, coldFactor / threshold);
  }

  /** The allowed rate lies between threshold / coldFactor and the threshold, for every number of stored tokens. */
  lemma {:induction false} RateEnvelope(c: Config, stored: int)
    requires c.Computed() && c.maxToken > c.warningToken && stored <= c.maxToken
    ensures AllowedRate(c, stored).Number?
    ensures c.threshold / c.coldFactor as real <= AllowedRate(c, stored).value <= c.threshold
  {
    var rest := if stored < 0 then 0 else stored;
    var above := if rest < c.warningToken then 0.0 else (rest - c.warningToken) as real;
    SlopePositive(c);
    DelayPositive(c, above);
    DelayMonotone(c.threshold, c.slope, above, (c.maxToken - c.warningToken) as real);
    FullDelay(c);
    DelayToRate(c.threshold, c.coldFactor as real, Delay(c.threshold, c.slope, above));
    DelayToRate(c.threshold, c.coldFactor as real, 1.0 / c.threshold);
  }

  /** Both ends are reached: the full threshold at the warning line, the cold rate at the maximum. */
  lemma {:induction false} EnvelopeIsTight(c: Config)
    requires c.Computed() && c.maxToken > c.warningToken
    ensures AllowedRate(c, c.warningToken) == Number(c.threshold)
    ensures AllowedRate(c, c.maxToken) == Number(c.threshold / c.coldFactor as real)
  {
    FullDelay(c);
    ReciprocalOf(c.coldFactor as real, c.threshold);
    ReciprocalOf(1.0, c.threshold);
    assert Delay(c.threshold, c.slope, 0.0) == 1.0 / c.threshold;
  }

  /** More stored tokens never allow a higher rate. */
  lemma {:induction false} RateAntitone(c: Config, s: int, t: int)
    requires c.Computed() && c.maxToken > c.warningToken && s <= t <= c.maxToken
    ensures AllowedRate(c, s).Number? && AllowedRate(c, t).Number? && AllowedRate(c, t).value <= AllowedRate(c, s).value
  {
    RateEnvelope(c, t);
    var w := c.warningToken;
    var a, b := (if s < 0 then 0 else s) - w, (if t < 0 then 0 else t) - w;
    if a >= 0 {
      SlopePositive(c);
      DelayPositive(c, a as real);
      DelayMonotone(c.threshold, c.slope, a as real, b as real);
      Reciprocals(Delay(c.threshold, c.slope, a as real), Delay(c.threshold, c.slope, b as real));
    }
  }

  /** So in every reachable state the allowed rate is a number within the envelope. */
  lemma {:induction false} ReachableRate(c: Config, ticks: seq<Tick>)
    requires c.Computed() && c.maxToken > c.warningToken
    requires forall i :: 0 <= i < |ticks| ==> ticks[i].passQps >= 0.0
    ensures InRange(c, Run(c, Bucket(0, 0), ticks))
    ensures var rate := AllowedRate(c, Run(c, Bucket(0, 0), ticks).storedTokens);
            rate.Number? && c.threshold / c.coldFactor as real <= rate.value <= c.threshold
  {
    RunKeepsRange(c, ticks);
    RateEnvelope(c, Run(c, Bucket(0, 0), ticks).storedTokens);
  }

  // ---------------------------------------------------------------- cooling down

  /** Whether an idle resource gains tokens from this number on: always below the warning line, never exactly on it, and
      above it only if the threshold, cut to a whole number, is at least the cold factor. */
  predicate CoolsFrom(c: Config, stored: int)
    requires c.Valid()
  {
    stored < c.warningToken || (stored > c.warningToken && c.threshold.Floor >= c.coldFactor)
  }

  /** Less than one request per second, so that nothing is taken off. */
  predicate Idle(t: Tick) {
    0.0 <= t.passQps < 1.0
  }

  lemma {:induction false} FloorQuotient(n: nat, d: nat)
    requires d > 0
    ensures n >= d <==> n / d >= 1
  {
  }

  /** Where an idle resource does not cool down, or has no room to, synchronising changes nothing. */
  lemma {:induction false} IdleStays(c: Config, b: Bucket, t: Tick)
    requires c.Valid() && InRange(c, b) && Idle(t) && (!CoolsFrom(c, b.storedTokens) || b.storedTokens == c.maxToken)
    ensures SyncToken(c, b, t.now, t.passQps).storedTokens == b.storedTokens
  {
    var current := t.now - t.now % 1000;
    if current > b.lastFilledTime {
      FillGrows(b.storedTokens, current - b.lastFilledTime, c.threshold);
      FloorQuotient(c.threshold.Floor, c.coldFactor);
    }
  }

  /** And so no idle run changes it. */
  lemma {:induction false} IdleRunStays(c: Config, b: Bucket, ticks: seq<Tick>)
    requires c.Valid() && InRange(c, b) && (!CoolsFrom(c, b.storedTokens) || b.storedTokens == c.maxToken)
    requires forall i :: 0 <= i < |ticks| ==> Idle(ticks[i])
    ensures Run(c, b, ticks).storedTokens == b.storedTokens
  {
    if |ticks| > 0 {
      var init := ticks[..|ticks| - 1];
      assert forall i :: 0 <= i < |init| ==> init[i] == ticks[i];
      IdleRunStays(c, b, init);
      IdleStays(c, Run(c, b, init), ticks[|ticks| - 1]);
    }
  }

  /** A whole second by which any number of tokens has been earned since the last synchronisation. */
  function LateEnough(c: Config, b: Bucket): (now: nat)
    requires c.Valid()
    ensures now % 1000 == 0 && now > b.lastFilledTime
  {
    var seconds := (c.maxToken as real / c.threshold).Floor + 1;
    assert c.maxToken as real / c.threshold >= 0.0;
    1000 * (b.lastFilledTime + seconds)
  }

  lemma {:induction false} EarnedIn(seconds: real, elapsed: real, threshold: real, tokens: real)
    requires threshold > 0.0 && seconds * threshold >= tokens && elapsed >= 1000.0 * seconds
    ensures elapsed * threshold / 1000.0 >= tokens
  {
    var perSeconds := seconds * threshold;
    MulMonotone(1000.0 * seconds, elapsed, threshold);
    assert 1000.0 * seconds * threshold == 1000.0 * perSeconds;
  }

  lemma {:induction false} EarnedByThen(c: Config, b: Bucket)
    requires c.Valid()
    ensures (LateEnough(c, b) - b.lastFilledTime) as real * c.threshold / 1000.0 >= c.maxToken as real
  {
    var quotient := c.maxToken as real / c.threshold;
    var seconds := (quotient.Floor + 1) as real;
    assert quotient * c.threshold == c.maxToken as real;
    MulMonotone(quotient, seconds, c.threshold);
    EarnedIn(seconds, (LateEnough(c, b) - b.lastFilledTime) as real, c.threshold, c.maxToken as real);
  }

  lemma {:induction false} CoolDownFills(c: Config, b: Bucket, now: nat, earned: real)
    requires c.Valid() && InRange(c, b) && CoolsFrom(c, b.storedTokens) && b.lastFilledTime <= now
    requires earned == (now - b.lastFilledTime) as real * c.threshold / 1000.0 && earned >= c.maxToken as real
    ensures CoolDownTokens(c, b, now, 0.0) == c.maxToken
  {
    FloorQuotient(c.threshold.Floor, c.coldFactor);
    assert (b.storedTokens as real + earned).Floor >= c.maxToken;
  }

  /** Where it does cool down, one late synchronisation fills it up. */
  lemma {:induction false} IdleFills(c: Config, b: Bucket)
    requires c.Valid() && InRange(c, b) && CoolsFrom(c, b.storedTokens)
    ensures SyncToken(c, b, LateEnough(c, b), 0.0).storedTokens == c.maxToken
  {
    var now := LateEnough(c, b);
    EarnedByThen(c, b);
    CoolDownFills(c, b, now, (now - b.lastFilledTime) as real * c.threshold / 1000.0);
  }

  /** Exactly when: some idle synchronisation adds tokens if and only if there is room and the number cools. In
      particular nothing is added exactly at the warning line, nor anywhere above it when the threshold is below the
      cold factor. */
  lemma {:induction false} CoolsDownIff(c: Config, b: Bucket)
    requires c.Valid() && InRange(c, b)
    ensures (exists t: Tick :: Idle(t) && SyncToken(c, b, t.now, t.passQps).storedTokens > b.storedTokens) <==>
            b.storedTokens < c.maxToken && CoolsFrom(c, b.storedTokens)
  {
    if b.storedTokens < c.maxToken && CoolsFrom(c, b.storedTokens) {
      var t := Tick(LateEnough(c, b), 0.0);
      IdleFills(c, b);
      assert Idle(t) && SyncToken(c, b, t.now, t.passQps).storedTokens > b.storedTokens;
    } else {
      forall t: Tick | Idle(t)
        ensures SyncToken(c, b, t.now, t.passQps).storedTokens == b.storedTokens
      {
        IdleStays(c, b, t);
      }
    }
  }

  /** A new calculator starts cold: its first synchronisation counts the time since the epoch. It fills up if and only
      if the warning line is above 0, or there is nothing to fill. */
  lemma {:induction false} StartsColdIff(c: Config)
    requires c.Valid()
    ensures SyncToken(c, Bucket(0, 0), LateEnough(c, Bucket(0, 0)), 0.0).storedTokens == c.maxToken <==>
            c.warningToken > 0 || c.maxToken == 0
  {
    var b := Bucket(0, 0);
    if c.warningToken > 0 {
      IdleFills(c, b);
    } else {
      IdleStays(c, b, Tick(LateEnough(c, b), 0.0));
    }
  }

  // ---------------------------------------------------------------- where the rate is a number

  ghost predicate NumberAfter(c: Config, ticks: seq<Tick>)
    requires c.Valid()
  {
    AllowedRate(c, Run(c, Bucket(0, 0), ticks).storedTokens).Number?
  }

  predicate Rates(ticks: seq<Tick>) {
    forall i :: 0 <= i < |ticks| ==> ticks[i].passQps >= 0.0
  }

  /** The rate is a number in every reachable state if and only if there is room above the warning line. */
  lemma {:induction false} RateIsNumberIff(c: Config)
    requires c.Computed()
    ensures (forall ticks :: Rates(ticks) ==> NumberAfter(c, ticks)) <==> c.maxToken > c.warningToken
  {
    if c.maxToken > c.warningToken {
      forall ticks | Rates(ticks)
        ensures NumberAfter(c, ticks)
      {
        ReachableRate(c, ticks);
      }
    } else if c.warningToken == 0 {
      assert Rates([]) && !NumberAfter(c, []);
    } else {
      var b := Bucket(0, 0);
      var ticks := [Tick(LateEnough(c, b), 0.0)];
      StartsColdIff(c);
      assert ticks[..0] == [];
      assert Run(c, b, ticks) == SyncToken(c, b, LateEnough(c, b), 0.0);
      assert Rates(ticks) && !NumberAfter(c, ticks);
    }
  }

  // ---------------------------------------------------------------- the calculator

  class WarmUpCalculator {
    const cfg: Config
    var storedTokens: int
    var lastFilledTime: nat

    ghost function Model(): Bucket
      reads this
    {
      Bucket(storedTokens, lastFilledTime)
    }

    ghost predicate Valid()
      reads this
    {
      cfg.Valid() && InRange(cfg, Model())
    }

    constructor (threshold: real, warmUpPeriodSec: nat, warmUpColdFactor: nat)
      requires threshold > 0.0
      ensures Valid() && cfg == NewConfig(threshold, warmUpPeriodSec, warmUpColdFactor) && Model() == Bucket(0, 0)
    {
      cfg := NewConfig(threshold, warmUpPeriodSec, warmUpColdFactor);
      storedTokens := 0;
      lastFilledTime := 0;
    }

    method Sync(now: nat, passQps: real)
      requires Valid() && passQps >= 0.0
      modifies this
      ensures Valid() && Model() == SyncToken(cfg, old(Model()), now, passQps)
      ensures now - now % 1000 > old(lastFilledTime) && old(storedTokens) >= cfg.warningToken &&
              passQps >= (cfg.threshold.Floor / cfg.coldFactor) as real ==>
                storedTokens == if old(storedTokens) > passQps.Floor then old(storedTokens) - passQps.Floor else 0
    {
      SyncKeepsRange(cfg, Model(), now, passQps);
      var currentTime := now - now % 1000;
      if currentTime <= lastFilledTime {
        return;
      }
      storedTokens := CoolDownTokens(cfg, Bucket(storedTokens, lastFilledTime), currentTime, passQps);
      storedTokens := storedTokens - passQps.Floor;
      if storedTokens < 0 {
        storedTokens := 0;
      }
      lastFilledTime := currentTime;
    }

    /** The rate allowed now, given the rate of the previous window. */
    method CalculateAllowedTokens(now: nat, previousQps: real) returns (rate: Float)
      requires Valid() && previousQps >= 0.0
      modifies this
      ensures Valid() && Model() == SyncToken(cfg, old(Model()), now, previousQps)
      ensures rate == AllowedRate(cfg, storedTokens)
    {
      Sync(now, previousQps);
      rate := AllowedRate(cfg, storedTokens);
    }
  }
}
