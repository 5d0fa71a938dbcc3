/** The hot-spot reject limiter: one token bucket per parameter value, kept in two caches that are always used
    together. */
module HotspotReject {
  import Clock
  import opened Lru
  import opened LruCaches
  import opened Options

  datatype Config<!K> = Config(threshold: int, specificItems: map<K, int>, burstCount: int, durationInSec: int) {
    function TokenCount(k: K): int {
      if k in specificItems then specificItems[k] else threshold
    }

    function MaxCount(k: K): int {
      TokenCount(k) + burstCount
    }

    /** What rule loading accepts. */
    predicate Valid() {
      burstCount >= 0 && durationInSec > 0
    }

    function DurationMs(): int {
      durationInSec * 1000
    }
  }

  const PARAMS_MAX_CAPACITY := 20000
  const PARAMS_CAPACITY_BASE := 4000

  /** Capacity of both caches of a rule; never zero, whatever the rule says. */
  function CacheSize(paramsMaxCapacity: int, durationInSec: int): (size: nat)
    ensures size > 0
    ensures paramsMaxCapacity > 0 ==> size == paramsMaxCapacity
    ensures paramsMaxCapacity <= 0 ==> size <= 20000
    ensures paramsMaxCapacity <= 0 && 0 < durationInSec ==>
              size <= 4000 * durationInSec && (size == 20000 || size == 4000 * durationInSec)
    ensures paramsMaxCapacity <= 0 && durationInSec <= 0 ==> size == 20000
  {
    var wanted := if paramsMaxCapacity > 0 then paramsMaxCapacity
                  else if durationInSec == 0 then PARAMS_MAX_CAPACITY
                  else if PARAMS_CAPACITY_BASE * durationInSec < PARAMS_MAX_CAPACITY then
                    PARAMS_CAPACITY_BASE * durationInSec
                  else PARAMS_MAX_CAPACITY;
    if wanted <= 0 then PARAMS_MAX_CAPACITY else wanted
  }

  /** The time of the last refill and the tokens left, by parameter value. */
  datatype Counters<!K(==)> = Counters(time: Cache<K, int>, token: Cache<K, int>)

  datatype Verdict = Pass | Block

  /** The statistic window of a known key has passed: earn tokens for the time since the last refill, up to the
      capacity, and pay from them. */
  function Refill<K>(cfg: Config<K>, c: Counters<K>, k: K, batch: int, passTime: int, now: int): (Counters<K>, Verdict)
    requires cfg.Valid()
  {
    var max := cfg.MaxCount(k);
    var (token, rest) := AddIfAbsent(c.token, k, max - batch);
    if rest.None? then (Counters(Store(c.time, k, now), token), Pass)
    else
      var toAdd := passTime * cfg.TokenCount(k) / cfg.DurationMs();
      var left := if toAdd + rest.value > max then max - batch else toAdd + rest.value - batch;
      if left < 0 then (Counters(c.time, token), Block)
      else (Counters(Store(c.time, k, now), Store(token, k, left)), Pass)
  }

  /** Inside the window: pay from the tokens left, if they are found. */
  function Spend<K>(c: Counters<K>, k: K, batch: int): (Counters<K>, Option<Verdict>) {
    var (token, rest) := Get(c.token, k);
    if rest.None? then (Counters(c.time, token), None)
    else if rest.value - batch >= 0 then (Counters(c.time, Store(token, k, rest.value - batch)), Some(Pass))
    else (Counters(c.time, token), Some(Block))
  }

  /** One round of the retry loop; `None` means that it goes round again. */
  function Attempt<K>(cfg: Config<K>, c: Counters<K>, k: K, batch: int, now: int): (Counters<K>, Option<Verdict>)
    requires cfg.Valid()
  {
    var (time, prior) := AddIfAbsent(c.time, k, now);
    if prior.None? then (Counters(time, AddIfAbsent(c.token, k, cfg.MaxCount(k) - batch).0), Some(Pass))
    else
      var passTime := now - prior.value;
      if passTime > cfg.DurationMs() then
        var (c', verdict) := Refill(cfg, Counters(time, c.token), k, batch, passTime, now);
        (c', Some(verdict))
      else Spend(Counters(time, c.token), k, batch)
  }

  /** Requests that are refused before the caches are looked at. */
  predicate RefusedAtOnce<K>(cfg: Config<K>, k: K, batch: int) {
    cfg.TokenCount(k) <= 0 || batch > cfg.MaxCount(k)
  }

  // ---------------------------------------------------------------- lock-step

  /** Both caches are valid and hold the same keys in the same order of use. */
  ghost predicate LockStep<K>(c: Counters<K>) {
    Lru.Valid(c.time) && Lru.Valid(c.token) && c.time.order == c.token.order && c.time.size == c.token.size
  }

  lemma {:induction false} LockStepKeys<K>(c: Counters<K>)
    requires LockStep(c)
    ensures c.time.items.Keys == c.token.items.Keys
  {
  }

  lemma {:induction false} StoreValid<K>(c: Cache<K, int>, k: K, v: int)
    requires Lru.Valid(c)
    ensures Lru.Valid(Store(c, k, v)) && Store(c, k, v).order == c.order && Store(c, k, v).size == c.size
    ensures k in c.items && c.items[k] == v ==> Store(c, k, v) == c
  {
    if k in c.items && c.items[k] == v {
      assert c.items[k := v] == c.items;
    }
  }

  /** What one round does with the refill time and the tokens of a key it finds. */
  function Decide(tokenCount: int, max: int, duration: int, last: int, rest: int, batch: int,
                  now: int): (int, int, Verdict)
    requires duration > 0
  {
    if now - last > duration then
      var toAdd := (now - last) * tokenCount / duration;
      var left := if toAdd + rest > max then max - batch else toAdd + rest - batch;
      if left < 0 then (last, rest, Block) else (now, left, Pass)
    else if rest - batch >= 0 then (last, rest - batch, Pass)
    else (last, rest, Block)
  }

  lemma {:induction false} RefillKnown<K>(cfg: Config<K>, c: Counters<K>, k: K, batch: int, last: int, now: int)
    requires cfg.Valid() && Lru.Valid(c.time) && k in c.time.items && c.time.items[k] == last && k in c.token.items
    requires now - last > cfg.DurationMs()
    ensures var (last', left, verdict) :=
              Decide(cfg.TokenCount(k), cfg.MaxCount(k), cfg.DurationMs(), last, c.token.items[k], batch, now);
            && (Refill(cfg, c, k, batch, now - last, now).1 == verdict)
            && (Refill(cfg, c, k, batch, now - last, now).0 ==
                Counters(Store(c.time, k, last'), Store(MoveToFront(c.token, k), k, left)))
  {
    StoreSame(c.time, k);
    StoreSame(MoveToFront(c.token, k), k);
  }

  lemma {:induction false} StoreSame<K>(c: Cache<K, int>, k: K)
    requires k in c.items
    ensures Store(c, k, c.items[k]) == c
  {
    assert c.items[k := c.items[k]] == c.items;
  }

  lemma {:induction false} SpendKnown<K>(cfg: Config<K>, c: Counters<K>, k: K, batch: int, last: int, now: int)
    requires cfg.Valid() && k in c.time.items && c.time.items[k] == last && k in c.token.items
    requires now - last <= cfg.DurationMs()
    ensures var (last', left, verdict) :=
              Decide(cfg.TokenCount(k), cfg.MaxCount(k), cfg.DurationMs(), last, c.token.items[k], batch, now);
            Spend(c, k, batch) ==
            (Counters(Store(c.time, k, last'), Store(MoveToFront(c.token, k), k, left)), Some(verdict))
  {
    StoreSame(c.time, k);
    StoreSame(MoveToFront(c.token, k), k);
  }

  /** A round on a known key moves it to the front of both caches and updates its two counters in place. */
  lemma {:induction false} AttemptKnown<K>(cfg: Config<K>, c: Counters<K>, k: K, batch: int, now: int)
    requires cfg.Valid() && LockStep(c) && k in c.time.items
    ensures k in c.token.items
    ensures var (last, left, verdict) :=
              Decide(cfg.TokenCount(k), cfg.MaxCount(k), cfg.DurationMs(),
                     c.time.items[k], c.token.items[k], batch, now);
            Attempt(cfg, c, k, batch, now) ==
            (Counters(Store(MoveToFront(c.time, k), k, last), Store(MoveToFront(c.token, k), k, left)), Some(verdict))
  {
    MoveToFrontValid(c.time, k);
    var moved := Counters(MoveToFront(c.time, k), c.token);
    var last := c.time.items[k];
    if now - last > cfg.DurationMs() {
      RefillKnown(cfg, moved, k, batch, last, now);
    } else {
      SpendKnown(cfg, moved, k, batch, last, now);
    }
  }

  /** A round on a new key starts it in both caches, which evict the same key if they are full. */
  lemma {:induction false} AttemptNew<K>(cfg: Config<K>, c: Counters<K>, k: K, batch: int, now: int)
    requires cfg.Valid() && LockStep(c) && k !in c.time.items
    ensures k !in c.token.items
    ensures Attempt(cfg, c, k, batch, now) ==
            (Counters(Insert(c.time, k, now), Insert(c.token, k, cfg.MaxCount(k) - batch)), Some(Pass))
  {
  }

  /** Every round keeps the caches in lock-step, so a key with a refill time always has its tokens too, and the
      retry loop ends in its first round. */
  lemma {:induction false} AttemptKeepsLockStep<K>(cfg: Config<K>, c: Counters<K>, k: K, batch: int, now: int)
    requires cfg.Valid() && LockStep(c)
    ensures LockStep(Attempt(cfg, c, k, batch, now).0)
    ensures Attempt(cfg, c, k, batch, now).1.Some?
    ensures Attempt(cfg, c, k, batch, now).0.time.size == c.time.size
    ensures Attempt(cfg, c, k, batch, now).0.time.order ==
            if k in c.time.items then [k] + Without(c.time.order, k) else Take([k] + c.time.order, c.time.size)
  {
    if k in c.time.items {
      AttemptKnown(cfg, c, k, batch, now);
      var (last, left, verdict) :=
        Decide(cfg.TokenCount(k), cfg.MaxCount(k), cfg.DurationMs(),
               c.time.items[k], c.token.items[k], batch, now);
      MoveToFrontValid(c.time, k);
      MoveToFrontValid(c.token, k);
      StoreValid(MoveToFront(c.time, k), k, last);
      StoreValid(MoveToFront(c.token, k), k, left);
    } else {
      AttemptNew(cfg, c, k, batch, now);
      InsertValid(c.time, k, now);
      InsertValid(c.token, k, cfg.MaxCount(k) - batch);
    }
  }

  // ---------------------------------------------------------------- the token bucket bound

  /** Tokens that `elapsed` ms are worth. */
  function Earned(elapsed: int, tokenCount: int, duration: int): int
    requires duration > 0
  {
    elapsed * tokenCount / duration
  }

  lemma {:induction false} QuotientsAdd(x: nat, y: nat, d: nat)
    requires d > 0
    ensures x / d + y / d <= (x + y) / d
  {
    var q := x / d + y / d;
    Clock.AlignFacts(x, d);
    Clock.AlignFacts(y, d);
    assert q * d == (x / d) * d + (y / d) * d;
    Clock.DivUnique(q, d, 0);
    Clock.DivMonotone(q * d, x + y, d);
  }

  /** Earning in pieces never gives more than earning at once. */
  lemma {:induction false} EarnedInPieces(a: nat, b: nat, tokenCount: nat, duration: int)
    requires duration > 0
    ensures 0 <= Earned(a, tokenCount, duration) && 0 <= Earned(b, tokenCount, duration)
    ensures Earned(a, tokenCount, duration) + Earned(b, tokenCount, duration) <= Earned(a + b, tokenCount, duration)
  {
    assert a * tokenCount >= 0 && b * tokenCount >= 0;
    QuotientsAdd(a * tokenCount, b * tokenCount, duration);
    assert (a + b) * tokenCount == a * tokenCount + b * tokenCount;
  }

  /** What one key has been admitted since it entered the cache at `start`. */
  datatype Account = Account(start: int, admitted: int)

  ghost predicate InBudget(tokenCount: int, max: int, duration: int, acc: Account, last: int, rest: int) {
    && 0 < tokenCount && 0 < duration
    && 0 <= rest <= max
    && acc.start <= last
    && acc.admitted + rest <= max + Earned(last - acc.start, tokenCount, duration)
  }

  /** Refills, caps and refusals all keep the key within its budget. */
  lemma {:induction false} DecideInBudget(tokenCount: int, max: int, duration: int, acc: Account, last: int, rest: int,
                                          batch: int, now: int)
    requires InBudget(tokenCount, max, duration, acc, last, rest) && last <= now && 0 <= batch <= max
    ensures var (last', rest', verdict) := Decide(tokenCount, max, duration, last, rest, batch, now);
            && last' <= now
            && InBudget(tokenCount, max, duration,
                        acc.(admitted := acc.admitted + if verdict == Pass then batch else 0), last', rest')
  {
    EarnedInPieces(last - acc.start, now - last, tokenCount, duration);
    assert last - acc.start + (now - last) == now - acc.start;
  }

  /** A key starts within its budget. */
  lemma {:induction false} StartInBudget(tokenCount: int, max: int, duration: int, batch: int, now: int)
    requires 0 < tokenCount && 0 < duration && 0 <= batch <= max
    ensures InBudget(tokenCount, max, duration, Account(now, batch), now, max - batch)
  {
    EarnedInPieces(0, 0, tokenCount, duration);
  }

  lemma {:induction false} BudgetAt(tokenCount: int, max: int, duration: int, acc: Account, last: int, rest: int,
                                    t: int)
    requires InBudget(tokenCount, max, duration, acc, last, rest) && last <= t
    ensures acc.admitted <= max + Earned(t - acc.start, tokenCount, duration)
  {
    EarnedInPieces(last - acc.start, t - last, tokenCount, duration);
    assert last - acc.start + (t - last) == t - acc.start;
  }

  /** Tokens a known key can spend now: what is left, plus what it has earned once the window has passed, up to its
      capacity. */
  function Available(tokenCount: int, max: int, duration: int, last: int, rest: int, now: int): int
    requires duration > 0
  {
    if now - last <= duration then rest
    else if rest + Earned(now - last, tokenCount, duration) < max then rest + Earned(now - last, tokenCount, duration)
    else max
  }

  /** No request is refused without need: it passes exactly when its batch is available, and then pays for it. */
  lemma {:induction false} PassesIffAvailable(tokenCount: int, max: int, duration: int, last: int, rest: int,
                                              batch: int, now: int)
    requires duration > 0 && 0 <= batch
    ensures var (last', rest', verdict) := Decide(tokenCount, max, duration, last, rest, batch, now);
            var available := Available(tokenCount, max, duration, last, rest, now);
            && (verdict == Pass <==> batch <= available)
            && (verdict == Pass ==> rest' == available - batch)
            && (verdict == Block ==> last' == last && rest' == rest)
            && (last' == if verdict == Pass && now - last > duration then now else last)
  {
  }

  datatype Tracked<!K(==)> = Tracked(c: Counters<K>, ledger: map<K, Account>)

  datatype Request<K> = Request(k: K, batch: nat, now: int)

  /** One request, with the ledger an observer keeps: an account lasts as long as its key stays in the cache. */
  function Serve<K>(cfg: Config<K>, s: Tracked<K>, r: Request<K>): Tracked<K>
    requires cfg.Valid()
  {
    if RefusedAtOnce(cfg, r.k, r.batch) then s
    else
      var (c, verdict) := Attempt(cfg, s.c, r.k, r.batch, r.now);
      var entered := if r.k in s.ledger then s.ledger[r.k] else Account(r.now, 0);
      var ledger := s.ledger[r.k :=
        entered.(admitted := entered.admitted + if verdict == Some(Pass) then r.batch else 0)];
      Tracked(c, map k | k in ledger && k in c.time.items :: ledger[k])
  }

  ghost predicate KeyInBudget<K>(cfg: Config<K>, s: Tracked<K>, k: K, now: int)
    requires k in s.ledger && k in s.c.time.items && k in s.c.token.items
  {
    && s.c.time.items[k] <= now
    && InBudget(cfg.TokenCount(k), cfg.MaxCount(k), cfg.DurationMs(), s.ledger[k],
                s.c.time.items[k], s.c.token.items[k])
  }

  ghost predicate Inv<K>(cfg: Config<K>, s: Tracked<K>, now: int) {
    && cfg.Valid()
    && LockStep(s.c)
    && s.c.time.items.Keys == s.c.token.items.Keys == s.ledger.Keys
    && forall k :: k in s.ledger ==> KeyInBudget(cfg, s, k, now)
  }

  /** The key of a served request, when it was cached before. */
  lemma {:induction false} ServeKnownKey<K>(cfg: Config<K>, s: Tracked<K>, r: Request<K>, last: int)
    requires Inv(cfg, s, last) && last <= r.now && !RefusedAtOnce(cfg, r.k, r.batch) && r.k in s.ledger
    ensures var s' := Serve(cfg, s, r);
            && s'.c.time.items.Keys == s.c.time.items.Keys && s'.c.token.items.Keys == s.c.token.items.Keys
            && s'.ledger.Keys == s.ledger.Keys
            && KeyInBudget(cfg, s', r.k, r.now)
            && (forall k :: k in s.ledger && k != r.k ==>
                  s'.c.time.items[k] == s.c.time.items[k] &&
                  s'.c.token.items[k] == s.c.token.items[k] && s'.ledger[k] == s.ledger[k])
  {
    AttemptKnown(cfg, s.c, r.k, r.batch, r.now);
    assert KeyInBudget(cfg, s, r.k, last);
    DecideInBudget(cfg.TokenCount(r.k), cfg.MaxCount(r.k), cfg.DurationMs(), s.ledger[r.k],
                   s.c.time.items[r.k], s.c.token.items[r.k], r.batch, r.now);
  }

  lemma {:induction false} ServeKnown<K>(cfg: Config<K>, s: Tracked<K>, r: Request<K>, last: int)
    requires Inv(cfg, s, last) && last <= r.now && !RefusedAtOnce(cfg, r.k, r.batch) && r.k in s.ledger
    ensures Inv(cfg, Serve(cfg, s, r), r.now)
  {
    ServeKnownKey(cfg, s, r, last);
    AttemptKeepsLockStep(cfg, s.c, r.k, r.batch, r.now);
    forall k | k in Serve(cfg, s, r).ledger
      ensures KeyInBudget(cfg, Serve(cfg, s, r), k, r.now)
    {
      assert KeyInBudget(cfg, s, k, last);
    }
  }

  lemma {:induction false} InsertItems<K>(c: Cache<K, int>, k: K, v: int)
    requires Lru.Valid(c) && k !in c.items
    ensures forall x :: x in Insert(c, k, v).items && x != k ==> x in c.items && Insert(c, k, v).items[x] == c.items[x]
  {
  }

  /** The caches and the ledger, when the key of a served request is new. */
  lemma {:induction false} ServeNewKey<K>(cfg: Config<K>, s: Tracked<K>, r: Request<K>, last: int)
    requires Inv(cfg, s, last) && !RefusedAtOnce(cfg, r.k, r.batch) && r.k !in s.ledger
    ensures var s' := Serve(cfg, s, r);
            && LockStep(s'.c) && s'.c.time.items.Keys == s'.c.token.items.Keys == s'.ledger.Keys
            && r.k in s'.ledger && s'.ledger[r.k] == Account(r.now, r.batch)
            && s'.c.time.items[r.k] == r.now && s'.c.token.items[r.k] == cfg.MaxCount(r.k) - r.batch
            && (forall k :: k in s'.ledger && k != r.k ==>
                  k in s.ledger && s'.c.time.items[k] == s.c.time.items[k] &&
                  s'.c.token.items[k] == s.c.token.items[k] && s'.ledger[k] == s.ledger[k])
  {
    AttemptKeepsLockStep(cfg, s.c, r.k, r.batch, r.now);
    AttemptNew(cfg, s.c, r.k, r.batch, r.now);
    LockStepKeys(Serve(cfg, s, r).c);
    InsertValid(s.c.time, r.k, r.now);
    InsertValid(s.c.token, r.k, cfg.MaxCount(r.k) - r.batch);
    InsertItems(s.c.time, r.k, r.now);
    InsertItems(s.c.token, r.k, cfg.MaxCount(r.k) - r.batch);
  }

  lemma {:induction false} ServeNew<K>(cfg: Config<K>, s: Tracked<K>, r: Request<K>, last: int)
    requires Inv(cfg, s, last) && last <= r.now && !RefusedAtOnce(cfg, r.k, r.batch) && r.k !in s.ledger
    ensures Inv(cfg, Serve(cfg, s, r), r.now)
  {
    ServeNewKey(cfg, s, r, last);
    StartInBudget(cfg.TokenCount(r.k), cfg.MaxCount(r.k), cfg.DurationMs(), r.batch, r.now);
    forall k | k in Serve(cfg, s, r).ledger
      ensures KeyInBudget(cfg, Serve(cfg, s, r), k, r.now)
    {
      if k != r.k {
        assert KeyInBudget(cfg, s, k, last);
      }
    }
  }

  function Run<K>(cfg: Config<K>, s: Tracked<K>, requests: seq<Request<K>>): Tracked<K>
    requires cfg.Valid()
  {
    if |requests| == 0 then s else Serve(cfg, Run(cfg, s, requests[..|requests| - 1]), requests[|requests| - 1])
  }

  predicate Legal<K>(requests: seq<Request<K>>) {
    forall i, j :: 0 <= i < j < |requests| ==> requests[i].now <= requests[j].now
  }

  function New<K(==)>(size: nat): Tracked<K> {
    Tracked(Counters(NewCache<K, int>(size), NewCache<K, int>(size)), map[])
  }

  function ClockAfter<K>(requests: seq<Request<K>>): int {
    if |requests| == 0 then 0 else requests[|requests| - 1].now
  }

  /** In every run of the controller, over any mix of keys and evictions, the caches stay in lock-step and every
      cached key within its budget. */
  lemma {:induction false} RunKeepsInv<K>(cfg: Config<K>, size: nat, requests: seq<Request<K>>)
    requires cfg.Valid() && size > 0 && Legal(requests)
    ensures Inv(cfg, Run(cfg, New<K>(size), requests), ClockAfter(requests))
  {
    if |requests| > 0 {
      var init, r := requests[..|requests| - 1], requests[|requests| - 1];
      RunKeepsInv(cfg, size, init);
      var s := Run(cfg, New<K>(size), init);
      var last := if |init| == 0 then r.now else ClockAfter(init);
      assert Inv(cfg, s, last);
      if RefusedAtOnce(cfg, r.k, r.batch) {
        forall k | k in s.ledger
          ensures KeyInBudget(cfg, s, k, r.now)
        {
          assert KeyInBudget(cfg, s, k, last);
        }
      } else if r.k in s.ledger {
        ServeKnown(cfg, s, r, last);
      } else {
        ServeNew(cfg, s, r, last);
      }
    }
  }

  lemma {:induction false} KeyWithinBudget<K>(cfg: Config<K>, s: Tracked<K>, now: int, k: K, t: int)
    requires Inv(cfg, s, now) && k in s.ledger && now <= t
    ensures k in s.c.token.items && 0 <= s.c.token.items[k] <= cfg.MaxCount(k)
    ensures s.ledger[k].admitted <= cfg.MaxCount(k) + Earned(t - s.ledger[k].start, cfg.TokenCount(k), cfg.DurationMs())
  {
    assert KeyInBudget(cfg, s, k, now);
    BudgetAt(cfg.TokenCount(k), cfg.MaxCount(k), cfg.DurationMs(), s.ledger[k], s.c.time.items[k], s.c.token.items[k],
             t);
  }

  /** The bound itself: since a key entered the cache, no more has been admitted than its own threshold and the burst,
      and what the elapsed time is worth at that threshold per duration; and its tokens stay between 0 and the first. */
  lemma {:induction false} AdmittedWithinBudget<K>(cfg: Config<K>, size: nat, requests: seq<Request<K>>, s: Tracked<K>,
                                                   k: K, t: int, tokens: int)
    requires cfg.Valid() && size > 0 && Legal(requests) && ClockAfter(requests) <= t
    requires s == Run(cfg, New<K>(size), requests) && k in s.ledger
    requires tokens == if k in cfg.specificItems then cfg.specificItems[k] else cfg.threshold
    ensures k in s.c.token.items && 0 <= s.c.token.items[k] <= tokens + cfg.burstCount
    ensures s.ledger[k].admitted <=
            tokens + cfg.burstCount + (t - s.ledger[k].start) * tokens / (cfg.durationInSec * 1000)
  {
    RunKeepsInv(cfg, size, requests);
    KeyWithinBudget(cfg, s, ClockAfter(requests), k, t);
  }

  /** Every verdict. A request is refused at once exactly if its value has no threshold or the batch is more than the
      threshold and the burst; otherwise a new value passes, and a known one exactly if the batch is no more than what
      is left, together with what it earned once the duration is over. */
  lemma {:induction false} CheckIff<K>(cfg: Config<K>, c: Counters<K>, k: K, batch: nat, now: int, tokens: int)
    requires cfg.Valid() && LockStep(c)
    requires tokens == if k in cfg.specificItems then cfg.specificItems[k] else cfg.threshold
    ensures RefusedAtOnce(cfg, k, batch) <==> tokens <= 0 || batch > tokens + cfg.burstCount
    ensures k !in c.time.items ==>
              var (c', verdict) := Attempt(cfg, c, k, batch, now);
              && verdict == Some(Pass) && k in c'.time.items && c'.time.items[k] == now
              && k in c'.token.items && c'.token.items[k] == tokens + cfg.burstCount - batch
    ensures k in c.time.items ==>
              && k in c.token.items
              && var (last, rest, max) := (c.time.items[k], c.token.items[k], tokens + cfg.burstCount);
                 var earned := (now - last) * tokens / (cfg.durationInSec * 1000);
                 var available := if now - last <= cfg.durationInSec * 1000 then rest
                                  else if rest + earned <= max then rest + earned
                                  else max;
                 && (Attempt(cfg, c, k, batch, now).1 == Some(Pass) <==> batch <= available)
                 && Attempt(cfg, c, k, batch, now).1.Some?
  {
    if k in c.time.items {
      AttemptKnown(cfg, c, k, batch, now);
      PassesIffAvailable(cfg.TokenCount(k), cfg.MaxCount(k), cfg.DurationMs(), c.time.items[k], c.token.items[k], batch,
                         now);
    } else {
      AttemptNew(cfg, c, k, batch, now);
      InsertValid(c.time, k, now);
      InsertValid(c.token, k, cfg.MaxCount(k) - batch);
    }
  }

  // ---------------------------------------------------------------- the controller

  class RejectController<K(==)> {
    const cfg: Config<K>
    const timeCounter: LruCache<K, int>
    const tokenCounter: LruCache<K, int>

    ghost function Model(): Counters<K>
      reads timeCounter, tokenCounter
    {
      Counters(timeCounter.Model(), tokenCounter.Model())
    }

    ghost predicate Valid()
      reads timeCounter, tokenCounter
    {
      timeCounter != tokenCounter && cfg.Valid() && LockStep(Model())
    }

    constructor (cfg: Config<K>, size: nat)
      requires cfg.Valid() && size > 0
      ensures Valid() && fresh(timeCounter) && fresh(tokenCounter) && this.cfg == cfg
      ensures Model() == New<K>(size).c
    {
      this.cfg := cfg;
      this.timeCounter := new LruCache(size);
      this.tokenCounter := new LruCache(size);
    }

    method RefillTokens(arg: K, tokenCount: int, maxCount: int, batchCount: int, passTime: int, now: int)
      returns (verdict: Verdict)
      requires timeCounter != tokenCounter && cfg.Valid()
      requires tokenCount == cfg.TokenCount(arg) && maxCount == cfg.MaxCount(arg)
      modifies timeCounter, tokenCounter
      ensures Model() == Refill(cfg, old(Model()), arg, batchCount, passTime, now).0
      ensures verdict == Refill(cfg, old(Model()), arg, batchCount, passTime, now).1
    {
      var rest := tokenCounter.AddIfAbsent(arg, maxCount - batchCount);
      if rest.None? {
        timeCounter.Store(arg, now);
        return Pass;
      }
      var toAdd := passTime * tokenCount / cfg.DurationMs();
      var left := if toAdd + rest.value > maxCount then maxCount - batchCount else toAdd + rest.value - batchCount;
      if left < 0 {
        return Block;
      }
      tokenCounter.Store(arg, left);
      timeCounter.Store(arg, now);
      return Pass;
    }

    method SpendTokens(arg: K, batchCount: int) returns (outcome: Option<Verdict>)
      requires timeCounter != tokenCounter
      modifies tokenCounter
      ensures Model() == Spend(old(Model()), arg, batchCount).0
      ensures outcome == Spend(old(Model()), arg, batchCount).1
    {
      var rest := tokenCounter.Get(arg);
      if rest.None? {
        return None;
      }
      if rest.value - batchCount >= 0 {
        tokenCounter.Store(arg, rest.value - batchCount);
        return Some(Pass);
      }
      return Some(Block);
    }

    /** One round of the loop. */
    method TryOnce(arg: K, tokenCount: int, maxCount: int, batchCount: int, now: int) returns (outcome: Option<Verdict>)
      requires timeCounter != tokenCounter && cfg.Valid()
      requires tokenCount == cfg.TokenCount(arg) && maxCount == cfg.MaxCount(arg)
      modifies timeCounter, tokenCounter
      ensures Model() == Attempt(cfg, old(Model()), arg, batchCount, now).0
      ensures outcome == Attempt(cfg, old(Model()), arg, batchCount, now).1
    {
      var last := timeCounter.AddIfAbsent(arg, now);
      if last.None? {
        var _ := tokenCounter.AddIfAbsent(arg, maxCount - batchCount);
        return Some(Pass);
      }
      var passTime := now - last.value;
      if passTime > cfg.DurationMs() {
        var verdict := RefillTokens(arg, tokenCount, maxCount, batchCount, passTime, now);
        return Some(verdict);
      }
      outcome := SpendTokens(arg, batchCount);
    }

    /** The retry loop terminates because the caches are in lock-step: without the tokens of a known key it would
        go round for ever. */
    method PerformChecking(arg: K, batchCount: int, now: int) returns (verdict: Verdict)
      requires Valid()
      modifies timeCounter, tokenCounter
      ensures Valid()
      ensures if RefusedAtOnce(cfg, arg, batchCount) then verdict == Block && Model() == old(Model())
              else Model() == Attempt(cfg, old(Model()), arg, batchCount, now).0 &&
                   Some(verdict) == Attempt(cfg, old(Model()), arg, batchCount, now).1
    {
      var tokenCount := if arg in cfg.specificItems then cfg.specificItems[arg] else cfg.threshold;
      if tokenCount <= 0 {
        return Block;
      }
      var maxCount := tokenCount + cfg.burstCount;
      if batchCount > maxCount {
        return Block;
      }
      AttemptKeepsLockStep(cfg, Model(), arg, batchCount, now);
      ghost var expected := Attempt(cfg, Model(), arg, batchCount, now);
      var outcome := None;
      while outcome.None?
        invariant outcome.None? ==> Model() == old(Model())
        invariant outcome.Some? ==> Model() == expected.0 && outcome == expected.1
        decreases outcome.None?
      {
        outcome := TryOnce(arg, tokenCount, maxCount, batchCount, now);
      }
      verdict := outcome.value;
    }
  }
}
