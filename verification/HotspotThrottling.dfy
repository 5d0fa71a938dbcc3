/** The hot-spot throttling limiter: requests of one parameter value are spaced out in time. */
module HotspotThrottling {
  import opened Lru
  import opened LruCaches
  import opened Options

  datatype Config<!K> = Config(threshold: int, specificItems: map<K, int>, durationInSec: int, maxQueueingTimeMs: int) {
    function TokenCount(k: K): int {
      if k in specificItems then specificItems[k] else threshold
    }

    function DurationMs(): int {
      durationInSec * 1000
    }

    /** Time that `batch` requests of value `k` take up. */
    function Cost(k: K, batch: nat): int
      requires TokenCount(k) > 0
    {
      batch * durationInSec * 1000 / TokenCount(k)
    }
  }

  datatype Verdict = Pass | Wait(ms: int) | Block

  /** Expected pass time: after the last one, or as if the last one was a whole window ago. */
  function Expected(duration: int, last: Option<int>, cost: int, now: int): int {
    if last.None? || last.value < now - duration then now - duration + cost else last.value + cost
  }

  function Decide(duration: int, maxQueue: int, last: Option<int>, cost: int, now: int): Verdict {
    var expected := Expected(duration, last, cost, now);
    if expected <= now || expected - now < maxQueue then
      if expected - now > 0 then Wait(expected - now) else Pass
    else Block
  }

  /** When a granted request passes. */
  function PassTime(v: Verdict, now: int): int
    requires !v.Block?
  {
    if v.Wait? then now + v.ms else now
  }

  /** One request. A key that is new stays in the cache with the current time even if its request is refused. */
  function PerformChecking<K>(cfg: Config<K>, c: Cache<K, int>, k: K, batch: nat, now: int): (Cache<K, int>, Verdict) {
    if cfg.TokenCount(k) <= 0 then (c, Block)
    else
      var (time, last) := AddIfAbsent(c, k, now);
      var v := Decide(cfg.DurationMs(), cfg.maxQueueingTimeMs, last, cfg.Cost(k, batch), now);
      if v.Block? then (time, v) else (Store(time, k, PassTime(v, now)), v)
  }

  /** Both branches, in the window and past it, keep the cost of the request between it and the last pass, and no
      granted wait reaches the queueing limit. */
  lemma {:induction false} DecideSpaces(duration: int, maxQueue: int, last: Option<int>, cost: int, now: int)
    ensures var v := Decide(duration, maxQueue, last, cost, now);
            && (!v.Block? && last.Some? ==> PassTime(v, now) >= last.value + cost)
            && (v.Wait? ==> 0 < v.ms < maxQueue)
            && (!v.Block? ==>
                  PassTime(v, now) ==
                  if Expected(duration, last, cost, now) < now then now else Expected(duration, last, cost, now))
            && (v.Block? <==>
                Expected(duration, last, cost, now) > now && Expected(duration, last, cost, now) >= now + maxQueue)
  {
  }

  // ---------------------------------------------------------------- runs

  /** One granted request: when it passes, how many it stands for and what they cost. */
  datatype Grant = Grant(time: int, batch: nat, cost: int)

  datatype Tracked<!K(==)> = Tracked(c: Cache<K, int>, grants: map<K, seq<Grant>>)

  datatype Request<K> = Request(k: K, batch: nat, now: int)

  /** One request, with the grants of each key since it entered the cache. */
  function Serve<K>(cfg: Config<K>, s: Tracked<K>, r: Request<K>): Tracked<K> {
    var (c, v) := PerformChecking(cfg, s.c, r.k, r.batch, r.now);
    if cfg.TokenCount(r.k) <= 0 then s
    else
      var before := if r.k in s.grants then s.grants[r.k] else [];
      var grants := s.grants[r.k :=
        if v.Block? then before
        else before + [Grant(PassTime(v, r.now), r.batch, cfg.Cost(r.k, r.batch))]];
      Tracked(c, map k | k in grants && k in c.items :: grants[k])
  }

  predicate Spaced(grants: seq<Grant>) {
    forall i :: 0 < i < |grants| ==> grants[i].time >= grants[i - 1].time + grants[i].cost
  }

  /** The stored time of a key is its last grant, if it has one, and its grants are spaced out. */
  ghost predicate KeyPaced(c: int, grants: seq<Grant>) {
    Spaced(grants) && (|grants| > 0 ==> c == grants[|grants| - 1].time)
  }

  ghost predicate Inv<K>(s: Tracked<K>) {
    && Lru.Valid(s.c)
    && s.c.items.Keys == s.grants.Keys
    && forall k :: k in s.grants ==> KeyPaced(s.c.items[k], s.grants[k])
  }

  lemma {:induction false} StoreTwice<K>(c: Cache<K, int>, k: K, a: int, b: int)
    ensures Store(Store(c, k, a), k, b) == Store(c, k, b)
  {
    if k in c.items {
      assert c.items[k := a][k := b] == c.items[k := b];
    }
  }

  /** The cache after one request: the key at the front with its time, the others as they were or evicted. */
  lemma {:induction false} ServeCache<K>(cfg: Config<K>, c: Cache<K, int>, r: Request<K>)
    requires Lru.Valid(c) && cfg.TokenCount(r.k) > 0
    ensures var last := if r.k in c.items then Some(c.items[r.k]) else None;
            var v := Decide(cfg.DurationMs(), cfg.maxQueueingTimeMs, last, cfg.Cost(r.k, r.batch), r.now);
            var (c', v') := PerformChecking(cfg, c, r.k, r.batch, r.now);
            && Lru.Valid(c') && v' == v
            && r.k in c'.items
            && c'.items[r.k] == (if !v.Block? then PassTime(v, r.now) else if last.Some? then last.value else r.now)
            && (forall k :: k in c'.items && k != r.k ==> k in c.items && c'.items[k] == c.items[k])
  {
    if r.k in c.items {
      MoveToFrontValid(c, r.k);
    } else {
      InsertValid(c, r.k, r.now);
    }
  }

  lemma {:induction false} GrantsPaced(last: Option<int>, before: seq<Grant>, duration: int, maxQueue: int, cost: int,
                                       batch: nat, now: int)
    requires last.Some? ==> KeyPaced(last.value, before)
    requires last.None? ==> before == []
    ensures var v := Decide(duration, maxQueue, last, cost, now);
            && (!v.Block? ==> KeyPaced(PassTime(v, now), before + [Grant(PassTime(v, now), batch, cost)]))
            && (v.Block? ==> KeyPaced(if last.Some? then last.value else now, before))
  {
    DecideSpaces(duration, maxQueue, last, cost, now);
  }

  lemma {:induction false} ServeKeepsInv<K>(cfg: Config<K>, s: Tracked<K>, r: Request<K>)
    requires Inv(s)
    ensures Inv(Serve(cfg, s, r))
  {
    if cfg.TokenCount(r.k) > 0 {
      ServeCache(cfg, s.c, r);
      var last := if r.k in s.c.items then Some(s.c.items[r.k]) else None;
      var before := if r.k in s.grants then s.grants[r.k] else [];
      GrantsPaced(last, before, cfg.DurationMs(), cfg.maxQueueingTimeMs, cfg.Cost(r.k, r.batch), r.batch, r.now);
      var s' := Serve(cfg, s, r);
      forall k | k in s'.grants
        ensures KeyPaced(s'.c.items[k], s'.grants[k])
      {
        if k != r.k {
          assert KeyPaced(s.c.items[k], s.grants[k]);
        }
      }
    }
  }

  function Run<K>(cfg: Config<K>, s: Tracked<K>, requests: seq<Request<K>>): Tracked<K> {
    if |requests| == 0 then s else Serve(cfg, Run(cfg, s, requests[..|requests| - 1]), requests[|requests| - 1])
  }

  /** In every run, whatever the clock does, the grants of a key since it entered the cache are each at least their
      own cost after the one before. */
  lemma {:induction false} RunIsPaced<K>(cfg: Config<K>, size: nat, requests: seq<Request<K>>)
    requires size > 0
    ensures Inv(Run(cfg, Tracked(NewCache<K, int>(size), map[]), requests))
  {
    if |requests| > 0 {
      RunIsPaced(cfg, size, requests[..|requests| - 1]);
      ServeKeepsInv(cfg, Run(cfg, Tracked(NewCache<K, int>(size), map[]), requests[..|requests| - 1]),
                    requests[|requests| - 1]);
    }
  }

  function TotalCost(grants: seq<Grant>): int {
    if |grants| == 0 then 0 else TotalCost(grants[..|grants| - 1]) + grants[|grants| - 1].cost
  }

  /** So the grants after the first cost no more than the time they are spread over. */
  lemma {:induction false} SpacedTotal(grants: seq<Grant>)
    requires Spaced(grants) && |grants| > 0
    ensures TotalCost(grants) - grants[0].cost <= grants[|grants| - 1].time - grants[0].time
  {
    if |grants| > 1 {
      SpacedTotal(grants[..|grants| - 1]);
    } else {
      assert grants[..0] == [];
    }
  }

  /** Each grant costs what its batch costs for this key. */
  ghost predicate Priced<K>(cfg: Config<K>, k: K, grants: seq<Grant>) {
    |grants| > 0 ==>
      && cfg.TokenCount(k) > 0
      && forall i :: 0 <= i < |grants| ==> grants[i].cost == cfg.Cost(k, grants[i].batch)
  }

  lemma {:induction false} PricedNext<K>(cfg: Config<K>, k: K, grants: seq<Grant>, g: Grant)
    requires Priced(cfg, k, grants) && cfg.TokenCount(k) > 0 && g.cost == cfg.Cost(k, g.batch)
    ensures Priced(cfg, k, grants + [g])
  {
  }

  lemma {:induction false} RunIsPriced<K>(cfg: Config<K>, s: Tracked<K>, requests: seq<Request<K>>, k: K)
    requires s.grants == map[]
    ensures k in Run(cfg, s, requests).grants ==> Priced(cfg, k, Run(cfg, s, requests).grants[k])
  {
    if |requests| > 0 {
      var mid, r := Run(cfg, s, requests[..|requests| - 1]), requests[|requests| - 1];
      RunIsPriced(cfg, s, requests[..|requests| - 1], k);
      if k == r.k && cfg.TokenCount(k) > 0 {
        var (c, v) := PerformChecking(cfg, mid.c, k, r.batch, r.now);
        if !v.Block? {
          PricedNext(cfg, k, if k in mid.grants then mid.grants[k] else [],
                     Grant(PassTime(v, r.now), r.batch, cfg.Cost(k, r.batch)));
        }
      }
    }
  }

  function Batches(grants: seq<Grant>): nat {
    if |grants| == 0 then 0 else Batches(grants[..|grants| - 1]) + grants[|grants| - 1].batch
  }

  lemma {:induction false} QuotientIsLargest(n: int, total: int, d: int)
    requires d > 0
    ensures n <= total / d <==> n * d <= total
    ensures total < (total / d) * d + d
  {
    var q := total / d;
    assert q * d <= total < q * d + d;
    if n <= q {
      MulUpTo(n, q, d);
    } else {
      MulUpTo(q + 1, n, d);
      assert (q + 1) * d == q * d + d;
    }
  }

  lemma {:induction false} MulUpTo(n: int, m: int, d: int)
    requires n <= m && d >= 0
    ensures n * d <= m * d
  {
  }

  /** The cost of a batch is the longest whole time in which the threshold does not allow more than the batch. */
  lemma {:induction false} CostIsLargest<K>(cfg: Config<K>, k: K, batch: nat, n: int, tokens: int)
    requires tokens == (if k in cfg.specificItems then cfg.specificItems[k] else cfg.threshold) && tokens > 0
    ensures n <= cfg.Cost(k, batch) <==> n * tokens <= batch * cfg.durationInSec * 1000
  {
    QuotientIsLargest(n, batch * cfg.durationInSec * 1000, tokens);
  }

  /** All but less than one ms of what a batch is worth is paid for. */
  lemma {:induction false} BatchesPaid<K>(cfg: Config<K>, k: K, grants: seq<Grant>, tokens: int)
    requires tokens == (if k in cfg.specificItems then cfg.specificItems[k] else cfg.threshold) && tokens > 0
    requires Priced(cfg, k, grants)
    ensures Batches(grants) * (cfg.durationInSec * 1000) <= (TotalCost(grants) + |grants|) * tokens
  {
    if |grants| > 0 {
      var init, g, d := grants[..|grants| - 1], grants[|grants| - 1], cfg.durationInSec * 1000;
      BatchesPaid(cfg, k, init, tokens);
      QuotientIsLargest(0, g.batch * cfg.durationInSec * 1000, tokens);
      assert g.batch * cfg.durationInSec * 1000 == g.batch * d;
      assert (Batches(init) + g.batch) * d == Batches(init) * d + g.batch * d;
      var paid := TotalCost(init) + |init|;
      assert (paid + (g.cost + 1)) * tokens == paid * tokens + (g.cost * tokens + tokens);
    }
  }

  lemma {:induction false} FirstAndRest(grants: seq<Grant>)
    requires |grants| > 0
    ensures TotalCost(grants) == grants[0].cost + TotalCost(grants[1..])
  {
    if |grants| == 1 {
      assert grants[..0] == [] && grants[1..] == [];
    } else {
      var init := grants[..|grants| - 1];
      FirstAndRest(init);
      assert grants[1..][..|grants| - 2] == init[1..];
    }
  }

  /** The rate: in every run, what is granted to a value after its first request is no more than its threshold allows
      per duration over the time it is spread over, with one ms of rounding for each grant. */
  lemma {:induction false} RunRate<K>(cfg: Config<K>, size: nat, requests: seq<Request<K>>, k: K, grants: seq<Grant>,
                                      tokens: int)
    requires size > 0 && k in Run(cfg, Tracked(NewCache<K, int>(size), map[]), requests).grants
    requires grants == Run(cfg, Tracked(NewCache<K, int>(size), map[]), requests).grants[k] && |grants| > 0
    requires tokens == if k in cfg.specificItems then cfg.specificItems[k] else cfg.threshold
    ensures tokens > 0
    ensures Batches(grants[1..]) * (cfg.durationInSec * 1000) <=
            (grants[|grants| - 1].time - grants[0].time + |grants| - 1) * tokens
  {
    RunIsPaced(cfg, size, requests);
    RunIsPriced(cfg, Tracked(NewCache<K, int>(size), map[]), requests, k);
    RateOf(cfg, k, grants, tokens);
  }

  lemma {:induction false} RateOf<K>(cfg: Config<K>, k: K, grants: seq<Grant>, tokens: int)
    requires tokens == (if k in cfg.specificItems then cfg.specificItems[k] else cfg.threshold) && tokens > 0
    requires Spaced(grants) && Priced(cfg, k, grants) && |grants| > 0
    ensures Batches(grants[1..]) * (cfg.durationInSec * 1000) <=
            (grants[|grants| - 1].time - grants[0].time + |grants| - 1) * tokens
  {
    var rest := grants[1..];
    FirstAndRest(grants);
    SpacedTotal(grants);
    BatchesPaid(cfg, k, rest, tokens);
    MulUpTo(TotalCost(rest) + |rest|, grants[|grants| - 1].time - grants[0].time + |grants| - 1, tokens);
  }

  /** Every verdict: a request is due its cost after the last pass of its value, but a value that is new or has been
      quiet for a duration counts as if it had last passed a duration ago. It passes when due, at once if that is
      over, and is refused exactly if it would have to wait for the queueing time or longer. */
  lemma {:induction false} CheckIff<K>(cfg: Config<K>, c: Cache<K, int>, k: K, batch: nat, now: int, tokens: int)
    requires Lru.Valid(c) && tokens == if k in cfg.specificItems then cfg.specificItems[k] else cfg.threshold
    ensures tokens <= 0 ==> PerformChecking(cfg, c, k, batch, now) == (c, Block)
    ensures tokens > 0 ==>
              var quiet := now - cfg.durationInSec * 1000;
              var from := if k in c.items && c.items[k] >= quiet then c.items[k] else quiet;
              var due := from + batch * cfg.durationInSec * 1000 / tokens;
              var (c', v) := PerformChecking(cfg, c, k, batch, now);
              && (v.Block? <==> due > now && due - now >= cfg.maxQueueingTimeMs)
              && (v.Pass? <==> due <= now)
              && (v.Wait? ==> v.ms == due - now)
              && k in c'.items && (!v.Block? ==> c'.items[k] == if due <= now then now else due)
              && (v.Block? ==> c'.items[k] == if k in c.items then c.items[k] else now)
  {
    if tokens > 0 {
      ServeCache(cfg, c, Request(k, batch, now));
    }
  }

  // ---------------------------------------------------------------- the controller

  class ThrottlingController<K(==)> {
    const cfg: Config<K>
    const timeCounter: LruCache<K, int>

    constructor (cfg: Config<K>, size: nat)
      requires size > 0
      ensures fresh(timeCounter) && this.cfg == cfg && timeCounter.Model() == NewCache<K, int>(size)
      ensures Lru.Valid(timeCounter.Model())
    {
      this.cfg := cfg;
      this.timeCounter := new LruCache(size);
    }

    /** Records a granted request: passed now, or due at `expectedTime`. */
    method Admit(arg: K, expectedTime: int, now: int) returns (verdict: Verdict)
      modifies timeCounter
      ensures verdict == if expectedTime - now > 0 then Wait(expectedTime - now) else Pass
      ensures timeCounter.Model() == Store(old(timeCounter.Model()), arg, PassTime(verdict, now))
    {
      timeCounter.Store(arg, now);
      var awaitTime := expectedTime - now;
      if awaitTime > 0 {
        timeCounter.Store(arg, expectedTime);
        StoreTwice(old(timeCounter.Model()), arg, now, expectedTime);
        return Wait(awaitTime);
      }
      return Pass;
    }

    method Check(arg: K, batchCount: nat, now: int) returns (verdict: Verdict)
      modifies timeCounter
      ensures timeCounter.Model() == PerformChecking(cfg, old(timeCounter.Model()), arg, batchCount, now).0
      ensures verdict == PerformChecking(cfg, old(timeCounter.Model()), arg, batchCount, now).1
    {
      var tokenCount := if arg in cfg.specificItems then cfg.specificItems[arg] else cfg.threshold;
      if tokenCount <= 0 {
        return Block;
      }
      var intervalCostTime := batchCount * cfg.durationInSec * 1000 / tokenCount;
      var last := timeCounter.AddIfAbsent(arg, now);
      var expectedTime;
      if last.None? || last.value < now - cfg.DurationMs() {
        expectedTime := now - cfg.DurationMs() + intervalCostTime;
      } else {
        expectedTime := last.value + intervalCostTime;
      }
      if expectedTime <= now || expectedTime - now < cfg.maxQueueingTimeMs {
        verdict := Admit(arg, expectedTime, now);
      } else {
        verdict := Block;
      }
    }
  }
}
