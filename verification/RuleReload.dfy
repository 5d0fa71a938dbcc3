/** Reloading the circuit breaker rules of one resource: breakers with an equal rule are kept, statistics of
    compatible ones are handed on, the rest is built anew. */
module RuleReload {
  import opened Breakers
  import opened Options

  /** An existing breaker: which object it is, its rule, and which statistic object it uses. */
  datatype Handle = Handle(id: nat, rule: Rule, stat: nat)

  /** One breaker of the new list. */
  datatype Built = Kept(breaker: Handle) | WithStat(rule: Rule, donor: Handle) | FreshStat(rule: Rule)

  /** Registered generators of custom strategies, and whether they succeed. */
  type Generators = map<nat, bool>

  predicate IsEqualsToBase(a: Rule, b: Rule) {
    && a.resource == b.resource && a.strategy == b.strategy && a.retryTimeoutMs == b.retryTimeoutMs
    && a.minRequestAmount == b.minRequestAmount && a.statIntervalMs == b.statIntervalMs
    && a.statSlidingWindowBucketCount == b.statSlidingWindowBucketCount && a.probeNum == b.probeNum
  }

  predicate IsEqualsTo(a: Rule, b: Rule) {
    IsEqualsToBase(a, b) &&
    match b.strategy
    case SlowRequestRatio => a.maxAllowedRtMs == b.maxAllowedRtMs && Float64Equals(a.threshold, b.threshold)
    case ErrorRatio => Float64Equals(a.threshold, b.threshold)
    case ErrorCount => Float64Equals(a.threshold, b.threshold)
    case Custom(_) => false
  }

  predicate IsStatReusable(a: Rule, b: Rule) {
    && a.resource == b.resource && a.strategy == b.strategy && a.statIntervalMs == b.statIntervalMs
    && a.statSlidingWindowBucketCount == b.statSlidingWindowBucketCount
  }

  // ---------------------------------------------------------------- searching

  /** First old breaker with an equal rule, or -1. */
  function EqualIndex(r: Rule, olds: seq<Handle>): (i: int)
    ensures -1 <= i < |olds|
    ensures i >= 0 ==> IsEqualsTo(olds[i].rule, r)
    ensures forall k :: 0 <= k < (if i >= 0 then i else |olds|) ==> !IsEqualsTo(olds[k].rule, r)
  {
    if |olds| == 0 then -1
    else
      var i := EqualIndex(r, olds[..|olds| - 1]);
      if i >= 0 then i else if IsEqualsTo(olds[|olds| - 1].rule, r) then |olds| - 1 else -1
  }

  /** First old breaker whose statistic fits, or -1. */
  function ReuseIndex(r: Rule, olds: seq<Handle>): (i: int)
    ensures -1 <= i < |olds|
    ensures i >= 0 ==> IsStatReusable(olds[i].rule, r)
    ensures forall k :: 0 <= k < (if i >= 0 then i else |olds|) ==> !IsStatReusable(olds[k].rule, r)
  {
    if |olds| == 0 then -1
    else
      var i := ReuseIndex(r, olds[..|olds| - 1]);
      if i >= 0 then i else if IsStatReusable(olds[|olds| - 1].rule, r) then |olds| - 1 else -1
  }

  /** One pass that finds both; it stops at the first equal rule. */
  method CalculateReuseIndexFor(r: Rule, olds: seq<Handle>) returns (equalIdx: int, reuseStatIdx: int)
    ensures equalIdx == EqualIndex(r, olds)
    ensures equalIdx == -1 ==> reuseStatIdx == ReuseIndex(r, olds)
  {
    equalIdx, reuseStatIdx := -1, -1;
    var idx := 0;
    while idx < |olds|
      invariant 0 <= idx <= |olds|
      invariant equalIdx == -1
      invariant EqualIndex(r, olds[..idx]) == -1
      invariant reuseStatIdx == ReuseIndex(r, olds[..idx])
    {
      assert olds[..idx + 1][..idx] == olds[..idx];
      var oldRule := olds[idx].rule;
      if IsEqualsTo(oldRule, r) {
        equalIdx := idx;
        assert forall k :: 0 <= k < idx ==> olds[..idx][k] == olds[k];
        FirstEqualAt(r, olds, idx);
        return;
      }
      if IsStatReusable(oldRule, r) && reuseStatIdx < 0 {
        reuseStatIdx := idx;
      }
      idx := idx + 1;
    }
    assert olds[..|olds|] == olds;
  }

  lemma {:induction false} FirstEqualAt(r: Rule, olds: seq<Handle>, i: nat)
    requires i < |olds| && IsEqualsTo(olds[i].rule, r) && forall k :: 0 <= k < i ==> !IsEqualsTo(olds[k].rule, r)
    ensures EqualIndex(r, olds) == i
  {
  }

  // ---------------------------------------------------------------- building

  function RemoveAt<T>(s: seq<T>, i: nat): seq<T>
    requires i < |s|
  {
    s[..i] + s[i + 1..]
  }

  /** The breaker for one rule, if any, and the old breakers still available after it. */
  function BuildOne(gens: Generators, res: string, r: Rule, olds: seq<Handle>): (Option<Built>, seq<Handle>) {
    var equalIdx := EqualIndex(r, olds);
    var reuseIdx := ReuseIndex(r, olds);
    if r.resource != res then (None, olds)
    else if equalIdx >= 0 then (Some(Kept(olds[equalIdx])), RemoveAt(olds, equalIdx))
    else if r.strategy.Custom? && (r.strategy.id !in gens || !gens[r.strategy.id]) then (None, olds)
    else if reuseIdx >= 0 then (Some(WithStat(r, olds[reuseIdx])), RemoveAt(olds, reuseIdx))
    else (Some(FreshStat(r)), olds)
  }

  function ToSeq<T>(o: Option<T>): seq<T> {
    if o.Some? then [o.value] else []
  }

  function Build(gens: Generators, res: string, rules: seq<Rule>, olds: seq<Handle>): seq<Built>
    decreases |rules|
  {
    if |rules| == 0 then []
    else
      var (built, rest) := BuildOne(gens, res, rules[0], olds);
      ToSeq(built) + Build(gens, res, rules[1..], rest)
  }

  /** Index of the old breaker that a rule draws on, or -1. */
  function Drawn(gens: Generators, res: string, r: Rule, olds: seq<Handle>): (d: int)
    ensures -1 <= d < |olds|
    ensures BuildOne(gens, res, r, olds).1 == if d >= 0 then RemoveAt(olds, d) else olds
  {
    if r.resource != res then -1
    else if EqualIndex(r, olds) >= 0 then EqualIndex(r, olds)
    else if r.strategy.Custom? && (r.strategy.id !in gens || !gens[r.strategy.id]) then -1
    else ReuseIndex(r, olds)
  }

  /** Element `i` of the first `n` taken out by moving the later ones down; the last of them is left where it was. */
  function ShiftOut<T>(s: seq<T>, n: nat, i: nat): (t: seq<T>)
    requires i < n <= |s|
    ensures |t| == |s| && t[..n - 1] == RemoveAt(s[..n], i)
  {
    s[..i] + s[i + 1..n] + s[n - 1..]
  }

  /** What becomes of the list of old breakers that the caller passed in, of which the first `n` are still available. */
  function CallerList(gens: Generators, res: string, rules: seq<Rule>, s: seq<Handle>, n: nat): seq<Handle>
    requires n <= |s|
    decreases |rules|
  {
    if |rules| == 0 then s
    else
      var d := Drawn(gens, res, rules[0], s[..n]);
      if d >= 0 then CallerList(gens, res, rules[1..], ShiftOut(s, n, d), n - 1)
      else CallerList(gens, res, rules[1..], s, n)
  }

  method RemoveInPlace(a: array<Handle>, n: nat, i: nat)
    requires i < n <= a.Length
    modifies a
    ensures a[..] == ShiftOut(old(a[..]), n, i)
  {
    for k := i to n - 1
      invariant forall m :: 0 <= m < a.Length ==> a[m] == if i <= m < k then old(a[m + 1]) else old(a[m])
    {
      a[k] := a[k + 1];
    }
    ghost var was := old(a[..]);
    assert forall m :: 0 <= m < a.Length ==> a[m] == ShiftOut(was, n, i)[m];
  }

  /** The body of the loop: the breaker for one rule, if any, and the old breaker it draws on. */
  method BuildForRule(gens: Generators, res: string, r: Rule, olds: seq<Handle>)
    returns (built: Option<Built>, drawn: int)
    ensures built == BuildOne(gens, res, r, olds).0
    ensures drawn == Drawn(gens, res, r, olds)
  {
    if res != r.resource {
      return None, -1;
    }
    var equalIdx, reuseStatIdx := CalculateReuseIndexFor(r, olds);
    if equalIdx >= 0 {
      return Some(Kept(olds[equalIdx])), equalIdx;
    }
    if r.strategy.Custom? && (r.strategy.id !in gens || !gens[r.strategy.id]) {
      return None, -1;
    }
    if reuseStatIdx >= 0 {
      return Some(WithStat(r, olds[reuseStatIdx])), reuseStatIdx;
    }
    return Some(FreshStat(r)), -1;
  }

  /** The loop over the rules, shrinking the caller's list of old breakers in place as it goes. */
  method BuildResourceCircuitBreaker(gens: Generators, res: string, rulesOfRes: seq<Rule>, oldResCbs: array<Handle>)
    returns (newCbsOfRes: seq<Built>)
    modifies oldResCbs
    ensures newCbsOfRes == Build(gens, res, rulesOfRes, old(oldResCbs[..]))
    ensures oldResCbs[..] == CallerList(gens, res, rulesOfRes, old(oldResCbs[..]), oldResCbs.Length)
  {
    newCbsOfRes := [];
    var n: nat := oldResCbs.Length;
    ghost var olds := oldResCbs[..];
    ghost var s := olds;
    assert s[..n] == olds;
    for i := 0 to |rulesOfRes|
      invariant n <= |s| && s == oldResCbs[..]
      invariant Build(gens, res, rulesOfRes, olds) == newCbsOfRes + Build(gens, res, rulesOfRes[i..], s[..n])
      invariant CallerList(gens, res, rulesOfRes, olds, |olds|) == CallerList(gens, res, rulesOfRes[i..], s, n)
    {
      BuildStep(gens, res, rulesOfRes, i, s, n, newCbsOfRes);
      assert s[..n] == oldResCbs[..n];
      var built, drawn := BuildForRule(gens, res, rulesOfRes[i], oldResCbs[..n]);
      if drawn >= 0 {
        RemoveInPlace(oldResCbs, n, drawn);
        s := oldResCbs[..];
        n := n - 1;
      }
      if built.Some? {
        newCbsOfRes := newCbsOfRes + [built.value];
      }
    }
    assert rulesOfRes[|rulesOfRes|..] == [];
  }

  /** One round of the loop, on the list of which the first `n` are still available. */
  lemma {:induction false} BuildStep(gens: Generators, res: string, rules: seq<Rule>, i: nat, s: seq<Handle>, n: nat,
                                     done: seq<Built>)
    requires i < |rules| && n <= |s|
    ensures var built := BuildOne(gens, res, rules[i], s[..n]).0;
            var d := Drawn(gens, res, rules[i], s[..n]);
            var s' := if d >= 0 then ShiftOut(s, n, d) else s;
            var n' := if d >= 0 then n - 1 else n;
            && done + Build(gens, res, rules[i..], s[..n]) ==
               (if built.Some? then done + [built.value] else done) + Build(gens, res, rules[i + 1..], s'[..n'])
            && CallerList(gens, res, rules[i..], s, n) == CallerList(gens, res, rules[i + 1..], s', n')
  {
    BuildAppend(gens, res, rules, i, s[..n], done);
    CallerNext(gens, res, rules, i, s, n);
  }

  lemma {:induction false} CallerNext(gens: Generators, res: string, rules: seq<Rule>, i: nat, s: seq<Handle>, n: nat)
    requires i < |rules| && n <= |s|
    ensures var d := Drawn(gens, res, rules[i], s[..n]);
            CallerList(gens, res, rules[i..], s, n) ==
            if d >= 0 then CallerList(gens, res, rules[i + 1..], ShiftOut(s, n, d), n - 1)
            else CallerList(gens, res, rules[i + 1..], s, n)
  {
    assert rules[i..][1..] == rules[i + 1..];
  }

  lemma {:induction false} BuildAppend(gens: Generators, res: string, rules: seq<Rule>, i: nat, olds: seq<Handle>,
                                       done: seq<Built>)
    requires i < |rules|
    ensures var (built, rest) := BuildOne(gens, res, rules[i], olds);
            done + Build(gens, res, rules[i..], olds) ==
            (if built.Some? then done + [built.value] else done) + Build(gens, res, rules[i + 1..], rest)
  {
    BuildNext(gens, res, rules[i..], olds);
    assert rules[i..][1..] == rules[i + 1..];
  }

  lemma {:induction false} BuildNext(gens: Generators, res: string, rules: seq<Rule>, olds: seq<Handle>)
    requires |rules| > 0
    ensures var (built, rest) := BuildOne(gens, res, rules[0], olds);
            Build(gens, res, rules, olds) == ToSeq(built) + Build(gens, res, rules[1..], rest)
  {
  }

  // ---------------------------------------------------------------- what is kept and what is handed on

  lemma {:induction false} RemainIn<T>(s: seq<T>, i: nat, x: T)
    requires i < |s| && x in RemoveAt(s, i)
    ensures x in s
  {
  }

  /** Each breaker of the new list is built for one of the rules, from old breakers that are left when its turn comes.
      */
  lemma {:induction false} BuiltFor(gens: Generators, res: string, rules: seq<Rule>, olds: seq<Handle>, b: Built)
    returns (r: Rule, left: seq<Handle>)
    requires b in Build(gens, res, rules, olds)
    ensures r in rules && BuildOne(gens, res, r, left).0 == Some(b)
    ensures forall h :: h in left ==> h in olds
    decreases |rules|
  {
    var one := BuildOne(gens, res, rules[0], olds);
    BuildNext(gens, res, rules, olds);
    if one.0 == Some(b) {
      r, left := rules[0], olds;
    } else {
      assert b in Build(gens, res, rules[1..], one.1);
      r, left := BuiltFor(gens, res, rules[1..], one.1, b);
      assert r in rules;
      var d := Drawn(gens, res, rules[0], olds);
      forall h | h in left
        ensures h in olds
      {
        if d >= 0 {
          RemainIn(olds, d, h);
        }
      }
    }
  }

  /** Nothing is built for a rule of another resource. */
  lemma {:induction false} OnlyOwnRules(gens: Generators, res: string, rules: seq<Rule>, olds: seq<Handle>, b: Built)
    requires b in Build(gens, res, rules, olds)
    ensures RuleOf(b).resource == res && (b.FreshStat? ==> b.rule in rules)
  {
    var r, left := BuiltFor(gens, res, rules, olds, b);
  }

  /** A statistic is handed on only between rules of the resource with the same strategy, interval and bucket count. */
  lemma {:induction false} HandedOnFits(gens: Generators, res: string, rules: seq<Rule>, olds: seq<Handle>, b: Built)
    requires b.WithStat? && b in Build(gens, res, rules, olds)
    ensures b.rule in rules && b.donor in olds && b.rule.resource == b.donor.rule.resource == res
    ensures b.donor.rule.strategy == b.rule.strategy && b.donor.rule.statIntervalMs == b.rule.statIntervalMs
    ensures b.donor.rule.statSlidingWindowBucketCount == b.rule.statSlidingWindowBucketCount
  {
    var r, left := BuiltFor(gens, res, rules, olds, b);
  }

  /** A breaker is kept only for a rule with the same fields, the thresholds being equal to within 10^-8; the allowed
      response time counts for the slow request strategy alone, and no breaker of a custom strategy is kept. */
  lemma {:induction false} KeptFits(gens: Generators, res: string, rules: seq<Rule>, olds: seq<Handle>, b: Built)
    returns (r: Rule)
    requires b.Kept? && b in Build(gens, res, rules, olds)
    ensures r in rules && b.breaker in olds && r.resource == b.breaker.rule.resource == res
    ensures b.breaker.rule.strategy == r.strategy && !r.strategy.Custom?
    ensures b.breaker.rule.retryTimeoutMs == r.retryTimeoutMs && b.breaker.rule.minRequestAmount == r.minRequestAmount
    ensures b.breaker.rule.statIntervalMs == r.statIntervalMs && b.breaker.rule.probeNum == r.probeNum
    ensures b.breaker.rule.statSlidingWindowBucketCount == r.statSlidingWindowBucketCount
    ensures r.strategy == SlowRequestRatio ==> b.breaker.rule.maxAllowedRtMs == r.maxAllowedRtMs
    ensures -0.00000001 < b.breaker.rule.threshold - r.threshold < 0.00000001
  {
    var left;
    r, left := BuiltFor(gens, res, rules, olds, b);
  }

  /** And neither is passed over: when its turn comes, a rule of the resource gets a new breaker only if no old one
      that is left has its fields, and a new statistic only if no old one that is left fits. A custom strategy without
      a generator that succeeds gets nothing and leaves the old breakers alone. */
  lemma {:induction false} AfreshOnlyIfNothingFits(gens: Generators, res: string, r: Rule, olds: seq<Handle>, h: Handle)
    requires h in olds && h.rule.resource == r.resource == res && h.rule.strategy == r.strategy
    requires h.rule.statIntervalMs == r.statIntervalMs
    requires h.rule.statSlidingWindowBucketCount == r.statSlidingWindowBucketCount
    ensures !r.strategy.Custom? && h.rule.retryTimeoutMs == r.retryTimeoutMs && h.rule.probeNum == r.probeNum &&
            h.rule.minRequestAmount == r.minRequestAmount && h.rule.threshold == r.threshold &&
            h.rule.maxAllowedRtMs == r.maxAllowedRtMs ==>
              BuildOne(gens, res, r, olds).0.Some? && BuildOne(gens, res, r, olds).0.value.Kept?
    ensures !r.strategy.Custom? || (r.strategy.id in gens && gens[r.strategy.id]) ==>
              BuildOne(gens, res, r, olds).0.Some? && !BuildOne(gens, res, r, olds).0.value.FreshStat?
    ensures r.strategy.Custom? && !(r.strategy.id in gens && gens[r.strategy.id]) ==>
              BuildOne(gens, res, r, olds) == (None, olds)
  {
    var i :| 0 <= i < |olds| && olds[i] == h;
    NoneMissed(r, olds, i);
  }

  lemma {:induction false} NoneMissed(r: Rule, olds: seq<Handle>, i: nat)
    requires i < |olds|
    ensures IsEqualsTo(olds[i].rule, r) ==> EqualIndex(r, olds) >= 0
    ensures IsStatReusable(olds[i].rule, r) ==> ReuseIndex(r, olds) >= 0
  {
  }

  // ---------------------------------------------------------------- no old breaker is used twice

  /** The old breakers a new list draws on. */
  function Used(builts: seq<Built>): seq<Handle> {
    if |builts| == 0 then []
    else
      (match builts[0]
       case Kept(h) => [h]
       case WithStat(_, h) => [h]
       case FreshStat(_) => []) + Used(builts[1..])
  }

  lemma {:induction false} RemoveAtMultiset<T>(s: seq<T>, i: nat)
    requires i < |s|
    ensures multiset(s) == multiset(RemoveAt(s, i)) + multiset{s[i]}
  {
    assert s == s[..i] + [s[i]] + s[i + 1..];
  }

  lemma {:induction false} UsedCons(o: Option<Built>, rest: seq<Built>)
    ensures Used(ToSeq(o) + rest) == Used(ToSeq(o)) + Used(rest)
  {
    if o.Some? {
      assert (ToSeq(o) + rest)[1..] == rest && ToSeq(o)[1..] == [];
    } else {
      assert ToSeq(o) + rest == rest;
    }
  }

  /** The old breakers that no rule draws on. */
  function Unused(gens: Generators, res: string, rules: seq<Rule>, olds: seq<Handle>): seq<Handle>
    decreases |rules|
  {
    if |rules| == 0 then olds else Unused(gens, res, rules[1..], BuildOne(gens, res, rules[0], olds).1)
  }

  lemma {:induction false} OneUse(gens: Generators, res: string, r: Rule, olds: seq<Handle>)
    ensures var (built, rest) := BuildOne(gens, res, r, olds);
            multiset(olds) == multiset(Used(ToSeq(built))) + multiset(rest)
  {
    var (built, rest) := BuildOne(gens, res, r, olds);
    var d := Drawn(gens, res, r, olds);
    if built.Some? {
      assert [built.value][1..] == [];
    }
    if d >= 0 {
      RemoveAtMultiset(olds, d);
      assert Used(ToSeq(built)) == [olds[d]];
    } else {
      assert Used(ToSeq(built)) == [];
    }
  }

  /** Every old breaker is drawn on exactly once or not at all: those used and those left make up the old list. */
  lemma {:induction false} NoDoubleUse(gens: Generators, res: string, rules: seq<Rule>, olds: seq<Handle>)
    ensures multiset(olds) == multiset(Used(Build(gens, res, rules, olds))) + multiset(Unused(gens, res, rules, olds))
    decreases |rules|
  {
    if |rules| > 0 {
      var (built, rest) := BuildOne(gens, res, rules[0], olds);
      OneUse(gens, res, rules[0], olds);
      NoDoubleUse(gens, res, rules[1..], rest);
      UsedCons(built, Build(gens, res, rules[1..], rest));
    }
  }

  /** The caller's list begins with the unused breakers afterwards and keeps its length, so that old entries linger
      behind them. */
  lemma {:induction false} CallerListStart(gens: Generators, res: string, rules: seq<Rule>, s: seq<Handle>, n: nat)
    requires n <= |s|
    ensures |CallerList(gens, res, rules, s, n)| == |s|
    ensures Unused(gens, res, rules, s[..n]) <= CallerList(gens, res, rules, s, n)
    decreases |rules|
  {
    if |rules| > 0 {
      var d := Drawn(gens, res, rules[0], s[..n]);
      if d >= 0 {
        CallerListStart(gens, res, rules[1..], ShiftOut(s, n, d), n - 1);
      } else {
        CallerListStart(gens, res, rules[1..], s, n);
      }
    }
  }

  predicate DistinctStats(olds: seq<Handle>) {
    forall i, j :: 0 <= i < j < |olds| ==> olds[i].stat != olds[j].stat
  }

  lemma {:induction false} SubsetDistinct(used: seq<Handle>, olds: seq<Handle>)
    requires multiset(used) <= multiset(olds) && DistinctStats(olds)
    ensures DistinctStats(used)
  {
    forall i, j | 0 <= i < j < |used|
      ensures used[i].stat != used[j].stat
    {
      assert used == used[..i] + [used[i]] + used[i + 1..j] + [used[j]] + used[j + 1..];
      assert used[i] in multiset(olds) && used[j] in multiset(olds);
      assert used[i] in olds && used[j] in olds;
      if used[i] == used[j] {
        assert multiset(used)[used[i]] >= 2;
        AtMostOnce(olds, used[i]);
        assert false;
      }
    }
  }

  lemma {:induction false} AtMostOnce(olds: seq<Handle>, h: Handle)
    requires DistinctStats(olds)
    ensures multiset(olds)[h] <= 1
  {
    if h in olds {
      var i :| 0 <= i < |olds| && olds[i] == h;
      assert olds == olds[..i] + [h] + olds[i + 1..];
      assert h !in olds[..i] && h !in olds[i + 1..];
    }
  }

  /** So new breakers never share an old statistic if the old ones did not. */
  lemma {:induction false} NoSharedStatistic(gens: Generators, res: string, rules: seq<Rule>, olds: seq<Handle>)
    requires DistinctStats(olds)
    ensures DistinctStats(Used(Build(gens, res, rules, olds)))
  {
    NoDoubleUse(gens, res, rules, olds);
    SubsetDistinct(Used(Build(gens, res, rules, olds)), olds);
  }

  /** The rule a breaker of the new list works by. */
  function RuleOf(b: Built): Rule {
    match b
    case Kept(h) => h.rule
    case WithStat(r, _) => r
    case FreshStat(r) => r
  }

  ghost predicate Serves(b: Built, r: Rule) {
    if b.Kept? then IsEqualsTo(b.breaker.rule, r)
    else RuleOf(b) == r && (b.WithStat? ==> IsStatReusable(b.donor.rule, r))
  }

  /** Every rule of the resource with a built-in strategy gets exactly one breaker, in the order of the rules: an
      existing one with an equal rule, or a new one with that rule, on a compatible statistic if it has an old one. */
  lemma {:induction false} OneBreakerPerRule(gens: Generators, res: string, rules: seq<Rule>, olds: seq<Handle>)
    requires forall i :: 0 <= i < |rules| ==> !rules[i].strategy.Custom? && rules[i].resource == res
    ensures var builts := Build(gens, res, rules, olds);
            |builts| == |rules| && forall i :: 0 <= i < |rules| ==> Serves(builts[i], rules[i])
    decreases |rules|
  {
    if |rules| > 0 {
      var (built, rest) := BuildOne(gens, res, rules[0], olds);
      assert built.Some? && Serves(built.value, rules[0]);
      OneBreakerPerRule(gens, res, rules[1..], rest);
    }
  }

  // ---------------------------------------------------------------- unchanged rules keep their breakers

  /** The fields that rule equality looks at. */
  function Key(r: Rule): Rule {
    r.(id := "", maxAllowedRtMs := if r.strategy == SlowRequestRatio then r.maxAllowedRtMs else 0)
  }

  function Keys(rules: seq<Rule>): seq<Rule> {
    seq(|rules|, i requires 0 <= i < |rules| => Key(rules[i]))
  }

  function RulesOf(olds: seq<Handle>): seq<Rule> {
    seq(|olds|, i requires 0 <= i < |olds| => olds[i].rule)
  }

  /** Different thresholds are at least the comparison precision apart. */
  ghost predicate Separated(a: seq<Rule>, b: seq<Rule>) {
    forall x, y :: x in a && y in b && Float64Equals(x.threshold, y.threshold) ==> x.threshold == y.threshold
  }

  predicate BuiltIn(rules: seq<Rule>, res: string) {
    forall i :: 0 <= i < |rules| ==> !rules[i].strategy.Custom? && rules[i].resource == res
  }

  lemma {:induction false} EqualIffKey(a: Rule, b: Rule)
    requires !b.strategy.Custom? && (Float64Equals(a.threshold, b.threshold) ==> a.threshold == b.threshold)
    ensures IsEqualsTo(a, b) <==> Key(a) == Key(b)
  {
  }

  lemma {:induction false} KeyFound(r: Rule, olds: seq<Handle>)
    requires !r.strategy.Custom? && Key(r) in Keys(RulesOf(olds))
    requires forall i :: 0 <= i < |olds| && Float64Equals(olds[i].rule.threshold, r.threshold) ==>
               olds[i].rule.threshold == r.threshold
    ensures EqualIndex(r, olds) >= 0 && Key(olds[EqualIndex(r, olds)].rule) == Key(r)
  {
    var keys := Keys(RulesOf(olds));
    var k :| 0 <= k < |keys| && keys[k] == Key(r);
    EqualIffKey(olds[k].rule, r);
    var i := EqualIndex(r, olds);
    EqualIffKey(olds[i].rule, r);
  }

  lemma {:induction false} KeysRemoveAt(olds: seq<Handle>, i: nat)
    requires i < |olds|
    ensures Keys(RulesOf(RemoveAt(olds, i))) == RemoveAt(Keys(RulesOf(olds)), i)
  {
  }

  lemma {:induction false} HeadIn<T>(k: T, rest: seq<T>, all: seq<T>)
    requires multiset([k] + rest) <= multiset(all)
    ensures k in all
  {
    assert ([k] + rest)[0] == k;
    assert k in multiset([k] + rest);
    assert k in multiset(all);
  }

  lemma {:induction false} RestFits<T>(k: T, rest: seq<T>, all: seq<T>, i: nat)
    requires multiset([k] + rest) <= multiset(all) && i < |all| && all[i] == k
    ensures multiset(rest) <= multiset(RemoveAt(all, i))
  {
    RemoveAtMultiset(all, i);
    assert multiset([k] + rest) == multiset{k} + multiset(rest);
    forall x
      ensures multiset(rest)[x] <= multiset(RemoveAt(all, i))[x]
    {
      assert multiset([k] + rest)[x] <= multiset(all)[x];
    }
  }

  /** The first new rule finds its breaker, and the others are still among what is left. */
  lemma {:induction false} FirstIsKept(rules: seq<Rule>, olds: seq<Handle>)
    requires |rules| > 0 && !rules[0].strategy.Custom? && Separated(RulesOf(olds), rules)
    requires multiset(Keys(rules)) <= multiset(Keys(RulesOf(olds)))
    ensures var i := EqualIndex(rules[0], olds);
            && i >= 0 && Key(olds[i].rule) == Key(rules[0])
            && multiset(Keys(rules[1..])) <= multiset(Keys(RulesOf(RemoveAt(olds, i))))
  {
    var r := rules[0];
    var keys := Keys(RulesOf(olds));
    assert Keys(rules) == [Key(r)] + Keys(rules[1..]);
    HeadIn(Key(r), Keys(rules[1..]), keys);
    forall i | 0 <= i < |olds| && Float64Equals(olds[i].rule.threshold, r.threshold)
      ensures olds[i].rule.threshold == r.threshold
    {
      assert RulesOf(olds)[i] in RulesOf(olds) && r in rules;
    }
    KeyFound(r, olds);
    var i := EqualIndex(r, olds);
    KeysRemoveAt(olds, i);
    RestFits(Key(r), Keys(rules[1..]), keys, i);
  }

  ghost predicate AllKept(builts: seq<Built>, rules: seq<Rule>) {
    |builts| == |rules| &&
    forall i :: 0 <= i < |builts| ==> builts[i].Kept? && Key(builts[i].breaker.rule) == Key(rules[i])
  }

  lemma {:induction false} AllKeptCons(h: Handle, builts: seq<Built>, rules: seq<Rule>)
    requires |rules| > 0 && Key(h.rule) == Key(rules[0]) && AllKept(builts, rules[1..])
    ensures AllKept([Kept(h)] + builts, rules)
  {
  }

  /** If the new rules are among the old ones, counted with multiplicity, and thresholds are separated, every
      result is an existing breaker with an equal rule, and none is built. */
  lemma {:induction false} SubsetIsKept(gens: Generators, res: string, rules: seq<Rule>, olds: seq<Handle>)
    requires BuiltIn(rules, res) && Separated(RulesOf(olds), rules)
    requires multiset(Keys(rules)) <= multiset(Keys(RulesOf(olds)))
    ensures AllKept(Build(gens, res, rules, olds), rules)
    decreases |rules|
  {
    if |rules| > 0 {
      FirstIsKept(rules, olds);
      var i := EqualIndex(rules[0], olds);
      SeparatedRest(olds, i, rules);
      SubsetIsKept(gens, res, rules[1..], RemoveAt(olds, i));
      AllKeptCons(olds[i], Build(gens, res, rules[1..], RemoveAt(olds, i)), rules);
    }
  }

  lemma {:induction false} SeparatedRest(olds: seq<Handle>, i: nat, rules: seq<Rule>)
    requires i < |olds| && |rules| > 0 && Separated(RulesOf(olds), rules)
    ensures Separated(RulesOf(RemoveAt(olds, i)), rules[1..])
  {
    var rest := RulesOf(RemoveAt(olds, i));
    forall x | x in rest
      ensures x in RulesOf(olds)
    {
      var k :| 0 <= k < |rest| && rest[k] == x;
      assert RulesOf(olds)[if k < i then k else k + 1] == x;
    }
  }

  function KeepAll(olds: seq<Handle>): seq<Built> {
    seq(|olds|, i requires 0 <= i < |olds| => Kept(olds[i]))
  }

  lemma {:induction false} KeepAllCons(olds: seq<Handle>)
    requires |olds| > 0
    ensures KeepAll(olds) == [Kept(olds[0])] + KeepAll(olds[1..])
  {
  }

  /** Reloading the rules the breakers already have returns the same breakers in the same order, whatever the
      thresholds. */
  lemma {:induction false} SameRulesSameBreakers(gens: Generators, res: string, olds: seq<Handle>)
    requires BuiltIn(RulesOf(olds), res)
    ensures Build(gens, res, RulesOf(olds), olds) == KeepAll(olds)
    decreases |olds|
  {
    if |olds| > 0 {
      SameRuleFirst(gens, res, olds);
      SameRulesSameBreakers(gens, res, olds[1..]);
      KeepAllCons(olds);
    } else {
      assert RulesOf(olds) == [];
    }
  }

  lemma {:induction false} SameRuleFirst(gens: Generators, res: string, olds: seq<Handle>)
    requires |olds| > 0 && BuiltIn(RulesOf(olds), res)
    ensures BuiltIn(RulesOf(olds[1..]), res)
    ensures Build(gens, res, RulesOf(olds), olds) == [Kept(olds[0])] + Build(gens, res, RulesOf(olds[1..]), olds[1..])
  {
    var rules := RulesOf(olds);
    assert rules[0] == olds[0].rule;
    assert RemoveAt(olds, 0) == olds[1..];
    assert rules[1..] == RulesOf(olds[1..]);
    FirstEqualAt(rules[0], olds, 0);
    BuildNext(gens, res, rules, olds);
  }

  /** The rule with another threshold, in units of 10^-9. */
  function At(r: Rule, nanos: int): Rule {
    r.(threshold := nanos as real / 1000000000.0)
  }

  // ---------------------------------------------------------------- exactly when an existing rule keeps its breaker

  /** Rule equality, which compares thresholds within a precision, is transitive on these rules. */
  ghost predicate Transitive(all: seq<Rule>) {
    forall a, b, c :: a in all && b in all && c in all && IsEqualsTo(a, b) && IsEqualsTo(b, c) ==> IsEqualsTo(a, c)
  }

  predicate AllOf(rules: seq<Rule>, all: seq<Rule>) {
    forall i :: 0 <= i < |rules| ==> rules[i] in all
  }

  /** Every result is an existing breaker with an equal rule. */
  ghost predicate EqualKept(builts: seq<Built>, rules: seq<Rule>) {
    && |builts| == |rules|
    && forall i :: 0 <= i < |builts| ==> builts[i].Kept? && IsEqualsTo(builts[i].breaker.rule, rules[i])
  }

  /** Whichever breakers exist for these rules, and however a selection of their rules is ordered, reloading the
      selection builds nothing. */
  ghost predicate NeverRebuilds(gens: Generators, res: string, all: seq<Rule>) {
    forall rules, olds :: AllOf(rules, all) && AllOf(RulesOf(olds), all) &&
                          multiset(Keys(rules)) <= multiset(Keys(RulesOf(olds))) ==>
                            EqualKept(Build(gens, res, rules, olds), rules)
  }

  lemma {:induction false} Symmetric(a: Rule, b: Rule)
    ensures IsEqualsTo(a, b) == IsEqualsTo(b, a)
  {
  }

  lemma {:induction false} EqualByKey(a: Rule, b: Rule)
    ensures IsEqualsTo(Key(a), b) == IsEqualsTo(a, b)
  {
  }

  /** How many of the rules equal `x`. */
  function EqualCount(rules: seq<Rule>, x: Rule): nat {
    if |rules| == 0 then 0 else (if IsEqualsTo(rules[0], x) then 1 else 0) + EqualCount(rules[1..], x)
  }

  lemma {:induction false} CountByKey(rules: seq<Rule>, x: Rule)
    ensures EqualCount(Keys(rules), x) == EqualCount(rules, x)
  {
    if |rules| > 0 {
      EqualByKey(rules[0], x);
      CountByKey(rules[1..], x);
      assert Keys(rules)[1..] == Keys(rules[1..]);
    }
  }

  lemma {:induction false} CountRemoved(rules: seq<Rule>, i: nat, x: Rule)
    requires i < |rules|
    ensures EqualCount(rules, x) == EqualCount(RemoveAt(rules, i), x) + (if IsEqualsTo(rules[i], x) then 1 else 0)
  {
    if i == 0 {
      assert RemoveAt(rules, 0) == rules[1..];
    } else {
      CountRemoved(rules[1..], i - 1, x);
      assert RemoveAt(rules, i)[1..] == RemoveAt(rules[1..], i - 1);
    }
  }

  lemma {:induction false} CountMonotone(few: seq<Rule>, many: seq<Rule>, x: Rule)
    requires multiset(few) <= multiset(many)
    ensures EqualCount(few, x) <= EqualCount(many, x)
  {
    if |few| > 0 {
      assert few == [few[0]] + few[1..];
      HeadIn(few[0], few[1..], many);
      var i :| 0 <= i < |many| && many[i] == few[0];
      RestFits(few[0], few[1..], many, i);
      CountMonotone(few[1..], RemoveAt(many, i), x);
      CountRemoved(many, i, x);
    }
  }

  lemma {:induction false} CountFinds(olds: seq<Handle>, x: Rule)
    requires EqualCount(RulesOf(olds), x) > 0
    ensures EqualIndex(x, olds) >= 0
  {
    if !IsEqualsTo(olds[0].rule, x) {
      assert RulesOf(olds)[1..] == RulesOf(olds[1..]);
      CountFinds(olds[1..], x);
      assert IsEqualsTo(olds[1 + EqualIndex(x, olds[1..])].rule, x);
    }
  }

  /** There are at least as many old breakers as rules in every class of equal rules. */
  ghost predicate Covers(olds: seq<Handle>, rules: seq<Rule>, all: seq<Rule>) {
    forall x :: x in all ==> EqualCount(rules, x) <= EqualCount(RulesOf(olds), x)
  }

  /** Serving the first rule by a breaker of its class leaves enough for the others. */
  lemma {:induction false} CoversRest(olds: seq<Handle>, rules: seq<Rule>, all: seq<Rule>, i: nat)
    requires Transitive(all) && AllOf(rules, all) && AllOf(RulesOf(olds), all) && Covers(olds, rules, all)
    requires |rules| > 0 && i < |olds| && IsEqualsTo(olds[i].rule, rules[0])
    ensures Covers(RemoveAt(olds, i), rules[1..], all) && AllOf(RulesOf(RemoveAt(olds, i)), all)
  {
    var r, o := rules[0], olds[i].rule;
    assert RulesOf(olds)[i] in all;
    assert RulesOf(RemoveAt(olds, i)) == RemoveAt(RulesOf(olds), i);
    forall x | x in all
      ensures EqualCount(rules[1..], x) <= EqualCount(RulesOf(RemoveAt(olds, i)), x)
    {
      Symmetric(o, r);
      assert IsEqualsTo(o, x) == IsEqualsTo(r, x);
      CountRemoved(RulesOf(olds), i, x);
    }
  }

  lemma {:induction false} ClassesAreKept(gens: Generators, res: string, rules: seq<Rule>, olds: seq<Handle>,
                                          all: seq<Rule>)
    requires BuiltIn(all, res) && Transitive(all)
    requires AllOf(rules, all) && AllOf(RulesOf(olds), all) && Covers(olds, rules, all)
    ensures EqualKept(Build(gens, res, rules, olds), rules)
    decreases |rules|
  {
    if |rules| > 0 {
      var r := rules[0];
      assert r in all && !r.strategy.Custom? && r.resource == res;
      assert IsEqualsTo(r, r);
      CountFinds(olds, r);
      var i := EqualIndex(r, olds);
      CoversRest(olds, rules, all, i);
      ClassesAreKept(gens, res, rules[1..], RemoveAt(olds, i), all);
      BuildNext(gens, res, rules, olds);
    }
  }

  lemma {:induction false} SelectionCovers(rules: seq<Rule>, olds: seq<Handle>, all: seq<Rule>)
    requires multiset(Keys(rules)) <= multiset(Keys(RulesOf(olds)))
    ensures Covers(olds, rules, all)
  {
    forall x | x in all
      ensures EqualCount(rules, x) <= EqualCount(RulesOf(olds), x)
    {
      CountMonotone(Keys(rules), Keys(RulesOf(olds)), x);
      CountByKey(rules, x);
      CountByKey(RulesOf(olds), x);
    }
  }

  lemma {:induction false} BuildFirstKept(gens: Generators, r: Rule, rest: seq<Rule>, h: Handle, left: seq<Handle>)
    requires IsEqualsTo(h.rule, r)
    ensures Build(gens, r.resource, [r] + rest, [h] + left) == [Kept(h)] + Build(gens, r.resource, rest, left)
  {
    FirstEqualAt(r, [h] + left, 0);
    assert RemoveAt([h] + left, 0) == left;
    assert ([r] + rest)[1..] == rest;
    BuildNext(gens, r.resource, [r] + rest, [h] + left);
  }

  lemma {:induction false} BuildReusing(gens: Generators, r: Rule, h: Handle)
    requires !r.strategy.Custom? && !IsEqualsTo(h.rule, r) && IsStatReusable(h.rule, r)
    ensures Build(gens, r.resource, [r], [h]) == [WithStat(r, h)]
  {
    assert [h][0] == h && [r][1..] == [];
    assert EqualIndex(r, [h]) == -1 && ReuseIndex(r, [h]) == 0;
    assert Build(gens, r.resource, [], RemoveAt([h], 0)) == [];
  }

  /** Without transitivity the greedy match can spend a breaker that only a later rule could use: when the first rule
      equals the second and the second the third, but the first not the third, reloading the three in the order
      second, third, first builds a new breaker for the last one. */
  lemma {:induction false} GreedyRebuilds(gens: Generators, first: Handle, second: Handle, third: Handle)
    requires !first.rule.strategy.Custom?
    requires IsEqualsTo(first.rule, second.rule) && IsEqualsTo(second.rule, third.rule)
    requires !IsEqualsTo(first.rule, third.rule)
    ensures Build(gens, first.rule.resource, [second.rule] + ([third.rule] + [first.rule]),
                  [first] + ([second] + [third])) ==
            [Kept(first)] + ([Kept(second)] + [WithStat(first.rule, third)])
  {
    Symmetric(first.rule, third.rule);
    BuildReusing(gens, first.rule, third);
    BuildFirstKept(gens, third.rule, [first.rule], second, [third]);
    BuildFirstKept(gens, second.rule, [third.rule] + [first.rule], first, [second] + [third]);
  }

  lemma {:induction false} GreedyFails(gens: Generators, first: Handle, second: Handle, third: Handle, rules: seq<Rule>,
                                       olds: seq<Handle>)
    requires !first.rule.strategy.Custom?
    requires IsEqualsTo(first.rule, second.rule) && IsEqualsTo(second.rule, third.rule)
    requires !IsEqualsTo(first.rule, third.rule)
    requires rules == [second.rule] + ([third.rule] + [first.rule]) && olds == [first] + ([second] + [third])
    ensures !EqualKept(Build(gens, first.rule.resource, rules, olds), rules)
  {
    GreedyRebuilds(gens, first, second, third);
    assert Build(gens, first.rule.resource, rules, olds)[2] == WithStat(first.rule, third);
  }

  lemma {:induction false} RotatedRules(first: Handle, second: Handle, third: Handle, all: seq<Rule>, rules: seq<Rule>,
                                        olds: seq<Handle>)
    requires first.rule in all && second.rule in all && third.rule in all
    requires rules == [second.rule] + ([third.rule] + [first.rule]) && olds == [first] + ([second] + [third])
    ensures AllOf(rules, all) && AllOf(RulesOf(olds), all) && multiset(Keys(rules)) <= multiset(Keys(RulesOf(olds)))
  {
    RotatedKeys(first, second, third);
  }

  lemma {:induction false} RebuildsUnlessTransitive(gens: Generators, res: string, all: seq<Rule>, a: Rule, b: Rule,
                                                    c: Rule)
    requires a in all && b in all && c in all && a.resource == res && !a.strategy.Custom?
    requires IsEqualsTo(a, b) && IsEqualsTo(b, c) && !IsEqualsTo(a, c)
    ensures !NeverRebuilds(gens, res, all)
  {
    var first, second, third := Handle(0, a, 0), Handle(1, b, 1), Handle(2, c, 2);
    var rules, olds := [b] + ([c] + [a]), [first] + ([second] + [third]);
    GreedyFails(gens, first, second, third, rules, olds);
    RotatedRules(first, second, third, all, rules, olds);
    Rebuilt(gens, res, all, rules, olds);
  }

  lemma {:induction false} Rebuilt(gens: Generators, res: string, all: seq<Rule>, rules: seq<Rule>, olds: seq<Handle>)
    requires AllOf(rules, all) && AllOf(RulesOf(olds), all) && multiset(Keys(rules)) <= multiset(Keys(RulesOf(olds)))
    requires !EqualKept(Build(gens, res, rules, olds), rules)
    ensures !NeverRebuilds(gens, res, all)
  {
  }

  lemma {:induction false} Rotated<T>(x: T, y: T, z: T)
    ensures multiset([y, z, x]) == multiset([x, y, z])
  {
  }

  lemma {:induction false} RotatedKeys(x: Handle, y: Handle, z: Handle)
    ensures multiset(Keys([y.rule] + ([z.rule] + [x.rule]))) == multiset(Keys(RulesOf([x] + ([y] + [z]))))
  {
    assert Keys([y.rule] + ([z.rule] + [x.rule])) == [Key(y.rule), Key(z.rule), Key(x.rule)];
    assert Keys(RulesOf([x] + ([y] + [z]))) == [Key(x.rule), Key(y.rule), Key(z.rule)];
    Rotated(Key(x.rule), Key(y.rule), Key(z.rule));
  }

  /** Exactly when: reloading any selection of existing rules in any order keeps every breaker if and only if rule
      equality is transitive on the rules. */
  lemma {:induction false} NeverRebuildsIff(gens: Generators, res: string, all: seq<Rule>)
    requires BuiltIn(all, res)
    ensures NeverRebuilds(gens, res, all) <==> Transitive(all)
  {
    if Transitive(all) {
      forall rules, olds | AllOf(rules, all) && AllOf(RulesOf(olds), all) &&
                           multiset(Keys(rules)) <= multiset(Keys(RulesOf(olds)))
        ensures EqualKept(Build(gens, res, rules, olds), rules)
      {
        SelectionCovers(rules, olds, all);
        ClassesAreKept(gens, res, rules, olds, all);
      }
    } else {
      var a, b, c :| a in all && b in all && c in all && IsEqualsTo(a, b) && IsEqualsTo(b, c) && !IsEqualsTo(a, c);
      RebuildsUnlessTransitive(gens, res, all, a, b, c);
    }
  }

  /** The failing input: three versions of any rule with thresholds 9 * 10^-9 apart. */
  lemma {:induction false} NearThresholdsRebuild(gens: Generators, r: Rule)
    requires !r.strategy.Custom?
    ensures !NeverRebuilds(gens, r.resource, [At(r, 0), At(r, 9), At(r, 18)])
  {
    RebuildsUnlessTransitive(gens, r.resource, [At(r, 0), At(r, 9), At(r, 18)], At(r, 0), At(r, 9), At(r, 18));
  }
}
