/** How many probes a recovery may take for every breaker to be decided once all entries are done: one. */
module ProbeLimit {
  import BreakerRuns
  import opened Breakers
  import opened Clock
  import opened EntryLifecycle
  import opened LeapRing

  // ---------------------------------------------------------------- one entry past all breakers

  predicate AllAt(steps: seq<Step>, t: nat) {
    forall i :: 0 <= i < |steps| ==> steps[i].now == t
  }

  function Repeat(step: Step, k: nat): (steps: seq<Step>)
    ensures |steps| == k && AllAt(steps, step.now)
  {
    if k == 0 then [] else [step] + Repeat(step, k - 1)
  }

  lemma {:induction false} RunConcat(s: System, a: seq<Step>, b: seq<Step>)
    requires Proper(s)
    ensures Run(s, a + b) == Run(Run(s, a), b)
  {
    if |b| == 0 {
      assert a + b == a;
    } else {
      RunConcat(s, a, b[..|b| - 1]);
      assert (a + b)[..|a + b| - 1] == a + b[..|b| - 1];
    }
  }

  lemma {:induction false} RunOne(s: System, step: Step)
    requires Proper(s)
    ensures Run(s, [step]) == Next(s, step)
  {
    assert [step][..0] == [];
    assert Run(s, []) == s;
  }

  lemma {:induction false} RunFirst(s: System, step: Step, rest: seq<Step>)
    requires Proper(s)
    ensures Proper(Next(s, step)) && Run(s, [step] + rest) == Run(Next(s, step), rest)
  {
    NextProper(s, step);
    RunOne(s, step);
    RunConcat(s, [step], rest);
  }

  /** Only entry `e` has changed. */
  ghost predicate Only(s: System, s': System, e: nat) {
    && e in s'.entries
    && forall x :: x != e ==>
         (x in s'.entries <==> x in s.entries) && (x in s.entries ==> s'.entries[x] == s.entries[x])
  }

  /** Breakers from `i` on let the entry pass one after the other. */
  lemma {:induction false} CheckAll(s: System, e: nat, i: nat, t: Millis, k: nat)
    requires Proper(s) && e in s.entries && s.entries[e].Checking? && s.entries[e].next == i && i + k == |s.breakers|
    requires forall x :: i <= x < |s.breakers| ==> TryPass(s.breakers[x], t).1
    ensures var s' := Run(s, Repeat(Check(e, t), k));
            && Only(s, s', e) && s'.entries[e].Checking? && s'.entries[e].next == |s.breakers|
            && s'.entries[e].start == s.entries[e].start
            && |s'.breakers| == |s.breakers|
            && forall x :: 0 <= x < |s.breakers| ==>
                 s'.breakers[x] == if x < i then s.breakers[x] else TryPass(s.breakers[x], t).0
    decreases k
  {
    if k > 0 {
      RunFirst(s, Check(e, t), Repeat(Check(e, t), k - 1));
      var s1 := Next(s, Check(e, t));
      assert s1 == AskBreaker(s, e, s.entries[e].start, i, s.entries[e].hooks, t);
      CheckAll(s1, e, i + 1, t, k - 1);
    }
  }

  /** Breakers from `i` on are told of the completion one after the other. */
  lemma {:induction false} NotifyAll(s: System, e: nat, i: nat, rt: nat, err: bool, t: Millis, k: nat)
    requires Proper(s) && e in s.entries && s.entries[e] == Completing(i, rt, err) && i + k == |s.breakers|
    ensures var s' := Run(s, Repeat(Notify(e, t), k));
            && Only(s, s', e) && s'.entries[e] == Completing(|s.breakers|, rt, err)
            && |s'.breakers| == |s.breakers|
            && forall x :: 0 <= x < |s.breakers| ==>
                 s'.breakers[x] == if x < i then s.breakers[x] else OnRequestComplete(s.breakers[x], t, rt, err)
    decreases k
  {
    if k > 0 {
      RunFirst(s, Notify(e, t), Repeat(Notify(e, t), k - 1));
      var s1 := Next(s, Notify(e, t));
      assert s1 == NotifyBreaker(s, e, i, rt, err, t);
      NotifyAll(s1, e, i + 1, rt, err, t, k - 1);
    }
  }

  /** The steps of an entry that `m` breakers and every other slot let pass. */
  function Enter(e: nat, m: nat, t: Millis): (steps: seq<Step>)
    ensures AllAt(steps, t)
  {
    [Begin(e, t)] + (Repeat(Check(e, t), m) + [LaterVerdict(e, t, true)])
  }

  /** The steps of its exit. */
  function Leave(e: nat, m: nat, t: Millis, err: bool): (steps: seq<Step>)
    ensures AllAt(steps, t)
  {
    [Exit(e, t, err)] + (Repeat(Notify(e, t), m) + [Notify(e, t)])
  }

  lemma {:induction false} EnterResult(s: System, e: nat, t: Millis)
    requires Proper(s) && e !in s.entries && forall x :: 0 <= x < |s.breakers| ==> TryPass(s.breakers[x], t).1
    ensures var s' := Run(s, Enter(e, |s.breakers|, t));
            && Only(s, s', e) && s'.entries[e].Passed? && s'.entries[e].start == t && |s'.breakers| == |s.breakers|
            && forall x :: 0 <= x < |s.breakers| ==> s'.breakers[x] == TryPass(s.breakers[x], t).0
  {
    var m := |s.breakers|;
    RunFirst(s, Begin(e, t), Repeat(Check(e, t), m) + [LaterVerdict(e, t, true)]);
    var s1 := Next(s, Begin(e, t));
    RunConcat(s1, Repeat(Check(e, t), m), [LaterVerdict(e, t, true)]);
    CheckAll(s1, e, 0, t, m);
    RunOne(Run(s1, Repeat(Check(e, t), m)), LaterVerdict(e, t, true));
  }

  lemma {:induction false} LeaveResult(s: System, e: nat, t: Millis, rt: nat, err: bool)
    requires Proper(s) && e in s.entries && s.entries[e].Passed? && t == s.entries[e].start + rt
    ensures var s' := Run(s, Leave(e, |s.breakers|, t, err));
            && Only(s, s', e) && s'.entries[e].Exited? && |s'.breakers| == |s.breakers|
            && forall x :: 0 <= x < |s.breakers| ==> s'.breakers[x] == OnRequestComplete(s.breakers[x], t, rt, err)
  {
    var m := |s.breakers|;
    RunFirst(s, Exit(e, t, err), Repeat(Notify(e, t), m) + [Notify(e, t)]);
    var s1 := Next(s, Exit(e, t, err));
    ExitStep(s, e, t, rt, err);
    RunConcat(s1, Repeat(Notify(e, t), m), [Notify(e, t)]);
    NotifyAll(s1, e, 0, rt, err, t, m);
    LastNotify(Run(s1, Repeat(Notify(e, t), m)), e, rt, err, t);
  }

  lemma {:induction false} ExitStep(s: System, e: nat, t: Millis, rt: nat, err: bool)
    requires Proper(s) && e in s.entries && s.entries[e].Passed? && t == s.entries[e].start + rt
    ensures Next(s, Exit(e, t, err)) == s.(entries := s.entries[e := Completing(0, rt, err)])
  {
  }

  lemma {:induction false} LastNotify(s: System, e: nat, rt: nat, err: bool, t: Millis)
    requires Proper(s) && e in s.entries && s.entries[e] == Completing(|s.breakers|, rt, err)
    ensures Run(s, [Notify(e, t)]) == s.(entries := s.entries[e := Exited])
  {
    RunOne(s, Notify(e, t));
  }

  // ---------------------------------------------------------------- every rule can be made to trip

  /** What rule loading accepts: a ratio is at most 1. */
  predicate Loadable(rule: Rule) {
    ValidRule(rule) && (rule.strategy == ErrorCount || rule.threshold <= 1.0)
  }

  /** The log of `n` bad completions at time `t`. */
  function AllBad(n: nat, t: nat): seq<Entry<bool>> {
    if n == 0 then [] else AllBad(n - 1, t) + [Entry(t, true)]
  }

  lemma {:induction false} AllBadTotal(n: nat, t: nat, len: nat, lo: int, hi: int)
    requires len > 0 && lo <= Align(t, len) <= hi
    ensures Total(AllBad(n, t), len, lo, hi, IsBad()) == n && Total(AllBad(n, t), len, lo, hi, IsRequest()) == n
  {
    if n > 0 {
      AllBadTotal(n - 1, t, len, lo, hi);
      assert AllBad(n, t)[..|AllBad(n, t)| - 1] == AllBad(n - 1, t);
    }
  }

  /** Bad completions at one time that are enough to trip the breaker. */
  function Enough(rule: Rule): nat
    requires rule.threshold >= 0.0
  {
    rule.minRequestAmount + rule.threshold.Floor + 1
  }

  /** A closed breaker that has seen `n` bad completions, all at time `t`. */
  ghost predicate Failing(b: Breaker, rule: Rule, born: nat, last: nat, n: nat, t: nat) {
    && WellFormed(b) && b.rule == rule && b.state == Closed
    && Breakers.Inv(Observed(b, AllBad(n, t), 0), born, last, 0)
  }

  /** A breaker that has tripped at time `t`. */
  ghost predicate Tripped(b: Breaker, rule: Rule, born: nat, t: nat) {
    && WellFormed(b) && b.rule == rule && b.state == Open && b.nextRetry == t + rule.retryTimeoutMs && b.curProbe == 0
    && Shape(b.stat, born, t)
  }

  lemma {:induction false} AllBadExceeds(rule: Rule, k: nat)
    requires rule.threshold >= 0.0 && (rule.strategy == ErrorCount || rule.threshold <= 1.0) && k >= Enough(rule)
    ensures k >= rule.minRequestAmount && Exceeds(rule, k, k)
  {
    if rule.strategy != ErrorCount {
      var n, limit := k as real, rule.threshold - PRECISION;
      BreakerRuns.ExceedsMeans(rule, k, k);
      assert (1.0 - limit) * n > 0.0;
    }
  }

  lemma {:induction false} EvidenceOfFailures(o: Observed, n: nat, t: Millis, rt: nat)
    requires rt > o.b.rule.maxAllowedRtMs
    requires WellFormed(o.b) && Sized(o.b.stat) && o.log == AllBad(n, t)
    requires n + 1 >= o.b.rule.minRequestAmount && Exceeds(o.b.rule, n + 1, n + 1)
    ensures BreakerRuns.Evidence(o, Complete(t, rt, true))
  {
    var len, interval := o.b.stat.len, o.b.stat.interval;
    BreakerRuns.IntervalAtLeastBucket(o.b.stat);
    AllBadTotal(n + 1, t, len, Align(t, len) - interval + len, Align(t, len));
    assert AllBad(n + 1, t) == o.log + [Entry(t, true)];
  }

  /** What the observer of a failing breaker sees next. */
  lemma {:induction false} FailureObserved(b: Breaker, n: nat, t: Millis, rt: nat)
    requires WellFormed(b) && b.state == Closed && rt > b.rule.maxAllowedRtMs
    ensures var o, op := Observed(b, AllBad(n, t), 0), Complete(t, rt, true);
            && Observe(o, op) == Observed(OnRequestComplete(b, t, rt, true), AllBad(n + 1, t), 0)
            && NextFloor(o, op, 0) == 0
  {
  }

  /** A closed breaker that a completion opens. */
  lemma {:induction false} TripSetsDeadline(b: Breaker, t: Millis, rt: nat, err: bool)
    requires WellFormed(b) && b.state == Closed && OnRequestComplete(b, t, rt, err).state == Open
    ensures var b' := OnRequestComplete(b, t, rt, err);
            b'.rule == b.rule && b'.nextRetry == t + b.rule.retryTimeoutMs && b'.curProbe == b.curProbe
  {
  }

  /** One more bad completion trips the breaker or is counted. */
  lemma {:induction false} FailureStep(b: Breaker, rule: Rule, born: nat, last: nat, n: nat, t: Millis, rt: nat,
                                       b': Breaker)
    requires Failing(b, rule, born, last, n, t) && last <= t && 0 < t && rt > rule.maxAllowedRtMs
    requires b' == OnRequestComplete(b, t, rt, true)
    ensures b'.state == Open ==> Tripped(b', rule, born, t)
    ensures b'.state == Closed ==> Failing(b', rule, born, t, n + 1, t)
  {
    var o, op := Observed(b, AllBad(n, t), 0), Complete(t, rt, true);
    BreakerRuns.StepKeepsInv(o, born, last, 0, op);
    FailureObserved(b, n, t, rt);
    assert Breakers.Inv(Observed(b', AllBad(n + 1, t), 0), born, t, 0);
    if b'.state == Open {
      TripSetsDeadline(b, t, rt, true);
    }
    assert b' == Apply(b, op);
  }

  /** The last bad completion that is needed trips the breaker. */
  lemma {:induction false} OneMoreFailure(b: Breaker, rule: Rule, born: nat, last: nat, n: nat, t: Millis, rt: nat)
    requires Failing(b, rule, born, last, n, t) && last <= t && 0 < t && rt > rule.maxAllowedRtMs
    requires Loadable(rule)
    ensures var b' := OnRequestComplete(b, t, rt, true);
            Tripped(b', rule, born, t) || (Failing(b', rule, born, t, n + 1, t) && n + 1 < Enough(rule))
  {
    var o, op := Observed(b, AllBad(n, t), 0), Complete(t, rt, true);
    var b' := OnRequestComplete(b, t, rt, true);
    FailureStep(b, rule, born, last, n, t, rt, b');
    BreakerRuns.TripStep(o, born, last, 0, op);
    assert b' == Apply(o.b, op);
    if n + 1 >= Enough(rule) {
      AllBadExceeds(rule, n + 1);
      EvidenceOfFailures(o, n, t, rt);
    }
  }

  /** A breaker after `n` bad completions at time `t`: tripped, or closed with all of them counted and too few. */
  ghost predicate Progress(b: Breaker, rule: Rule, born: nat, n: nat, t: nat) {
    Tripped(b, rule, born, t) ||
    (Failing(b, rule, born, t, n, t) && rule.threshold >= 0.0 && n < Enough(rule))
  }

  lemma {:induction false} TrippedStays(b: Breaker, rule: Rule, born: nat, t: Millis, rt: nat, err: bool)
    requires Tripped(b, rule, born, t) && 0 < t
    ensures Tripped(OnRequestComplete(b, t, rt, err), rule, born, t)
  {
    CompletionDecides(b, born, t, t, rt, err);
  }

  lemma {:induction false} ProgressNext(b: Breaker, rule: Rule, born: nat, n: nat, t: Millis, rt: nat)
    requires Progress(b, rule, born, n, t) && 0 < t && rt > rule.maxAllowedRtMs && Loadable(rule)
    ensures Progress(OnRequestComplete(b, t, rt, true), rule, born, n + 1, t)
  {
    if Tripped(b, rule, born, t) {
      TrippedStays(b, rule, born, t, rt, true);
    } else {
      OneMoreFailure(b, rule, born, t, n, t, rt);
    }
  }

  lemma {:induction false} ProgressStart(rule: Rule, born: nat, t: Millis)
    requires Loadable(rule) && born <= t
    ensures Progress(NewBreaker(rule, born), rule, born, 0, t)
  {
    BreakerRuns.BuiltInv(rule, born);
    var b := NewBreaker(rule, born);
    LaterLast(b.stat, AllBad(0, t), born, born, t, 0, COUNTERS);
  }

  // ---------------------------------------------------------------- all breakers trip together

  /** Entries below `n` are under way since `start`; those from there to `top` are done; there are no others. */
  predicate UnderWay(s: System, n: nat, top: nat, start: nat) {
    && (forall e :: e in s.entries ==> e < top)
    && (forall e :: 0 <= e < n ==> e in s.entries && s.entries[e].Passed? && s.entries[e].start == start)
    && (forall e :: n <= e < top && e in s.entries ==> s.entries[e].Exited?)
  }

  /** The times of the steps do not go back and lie in `lo..hi`. */
  predicate Spans(steps: seq<Step>, lo: nat, hi: nat) {
    && (forall i :: 0 <= i < |steps| ==> lo <= steps[i].now <= hi)
    && (forall i, j :: 0 <= i < j < |steps| ==> steps[i].now <= steps[j].now)
  }

  lemma {:induction false} SpansConcat(a: seq<Step>, b: seq<Step>, lo: nat, mid: nat, hi: nat)
    requires Spans(a, lo, mid) && Spans(b, mid, hi) && lo <= mid <= hi
    ensures Spans(a + b, lo, hi)
  {
    var all := a + b;
    assert forall i :: 0 <= i < |all| ==> all[i] == if i < |a| then a[i] else b[i - |a|];
  }

  /** Closed breakers let an entry pass and stay as they are. */
  lemma {:induction false} EnterOne(s: System, n: nat, t: Millis) returns (steps: seq<Step>, s': System)
    requires Proper(s) && UnderWay(s, n, n, t) && forall x :: 0 <= x < |s.breakers| ==> s.breakers[x].state == Closed
    ensures Spans(steps, t, t) && s' == Run(s, steps) && UnderWay(s', n + 1, n + 1, t) && s'.breakers == s.breakers
  {
    EnterResult(s, n, t);
    steps := Enter(n, |s.breakers|, t);
    s' := Run(s, steps);
  }

  /** `n` entries, numbered from 0, enter while everything is closed. */
  lemma {:induction false} EnterMany(s: System, n: nat, t: Millis) returns (steps: seq<Step>, s': System)
    requires Proper(s) && s.entries == map[] && forall x :: 0 <= x < |s.breakers| ==> s.breakers[x].state == Closed
    ensures Spans(steps, t, t) && s' == Run(s, steps) && UnderWay(s', n, n, t) && s'.breakers == s.breakers
  {
    if n == 0 {
      steps, s' := [], s;
    } else {
      var before, s1 := EnterMany(s, n - 1, t);
      var last;
      last, s' := EnterOne(s1, n - 1, t);
      RunConcat(s, before, last);
      SpansConcat(before, last, t, t, t);
      steps := before + last;
    }
  }

  /** Every breaker has made progress by `n` bad completions. */
  ghost predicate AllProgress(s: System, rules: seq<Rule>, born: nat, n: nat, t: nat) {
    |s.breakers| == |rules| && forall i :: 0 <= i < |rules| ==> Progress(s.breakers[i], rules[i], born, n, t)
  }

  predicate SlowForAll(rules: seq<Rule>, rt: nat) {
    forall i :: 0 <= i < |rules| ==> rt > rules[i].maxAllowedRtMs
  }

  predicate AllLoadable(rules: seq<Rule>) {
    forall i :: 0 <= i < |rules| ==> Loadable(rules[i])
  }

  lemma {:induction false} LeaveOne(s: System, rules: seq<Rule>, born: nat, n: nat, top: nat, done: nat, start: nat,
                                    t: Millis, rt: nat)
    returns (steps: seq<Step>, s': System)
    requires Proper(s) && AllProgress(s, rules, born, done, t) && UnderWay(s, n, top, start) && 0 < n <= top
    requires 0 < t && t == start + rt && AllLoadable(rules) && SlowForAll(rules, rt)
    ensures Spans(steps, t, t) && Proper(s') && s' == Run(s, steps)
    ensures AllProgress(s', rules, born, done + 1, t) && UnderWay(s', n - 1, top, start)
  {
    LeaveResult(s, n - 1, t, rt, true);
    steps := Leave(n - 1, |rules|, t, true);
    s' := Run(s, steps);
    AllProgressNext(s, s', rules, born, done, t, rt);
  }

  lemma {:induction false} AllProgressNext(s: System, s': System, rules: seq<Rule>, born: nat, done: nat, t: Millis,
                                           rt: nat)
    requires Proper(s) && AllProgress(s, rules, born, done, t) && |s'.breakers| == |s.breakers|
    requires forall x :: 0 <= x < |s.breakers| ==> s'.breakers[x] == OnRequestComplete(s.breakers[x], t, rt, true)
    requires 0 < t && AllLoadable(rules) && SlowForAll(rules, rt)
    ensures AllProgress(s', rules, born, done + 1, t)
  {
    forall i | 0 <= i < |rules|
      ensures Progress(s'.breakers[i], rules[i], born, done + 1, t)
    {
      ProgressNext(s.breakers[i], rules[i], born, done, t, rt);
    }
  }

  /** The entries under way leave, the latest first, all slow and failed. */
  lemma {:induction false} LeaveMany(s: System, rules: seq<Rule>, born: nat, n: nat, top: nat, done: nat, start: nat,
                                     t: Millis, rt: nat)
    returns (steps: seq<Step>, s': System)
    requires Proper(s) && AllProgress(s, rules, born, done, t) && UnderWay(s, n, top, start) && n <= top
    requires 0 < t && t == start + rt && AllLoadable(rules) && SlowForAll(rules, rt)
    ensures Spans(steps, t, t) && s' == Run(s, steps)
    ensures AllProgress(s', rules, born, done + n, t) && UnderWay(s', 0, top, start)
    decreases n
  {
    if n == 0 {
      steps, s' := [], s;
    } else {
      var first, s1 := LeaveOne(s, rules, born, n, top, done, start, t, rt);
      var rest;
      rest, s' := LeaveMany(s1, rules, born, n - 1, top, done + 1, start, t, rt);
      RunConcat(s, first, rest);
      SpansConcat(first, rest, t, t, t);
      steps := first + rest;
    }
  }

  function MostNeeded(rules: seq<Rule>): (n: nat)
    requires AllLoadable(rules)
    ensures forall i :: 0 <= i < |rules| ==> Enough(rules[i]) <= n
  {
    if |rules| == 0 then 0
    else
      var rest := MostNeeded(rules[..|rules| - 1]);
      if Enough(rules[|rules| - 1]) > rest then Enough(rules[|rules| - 1]) else rest
  }

  function Slowest(rules: seq<Rule>): (rt: nat)
    ensures rt > 0 && SlowForAll(rules, rt)
  {
    if |rules| == 0 then 1
    else
      var rest := Slowest(rules[..|rules| - 1]);
      if rules[|rules| - 1].maxAllowedRtMs >= rest then rules[|rules| - 1].maxAllowedRtMs + 1 else rest
  }

  ghost predicate AllTripped(s: System, rules: seq<Rule>, born: nat, t: nat) {
    |s.breakers| == |rules| && forall i :: 0 <= i < |rules| ==> Tripped(s.breakers[i], rules[i], born, t)
  }

  lemma {:induction false} FreshProgress(rules: seq<Rule>, born: nat, t: Millis)
    requires AllLoadable(rules) && born <= t
    ensures Proper(Fresh(rules, born)) && AllProgress(Fresh(rules, born), rules, born, 0, t)
    ensures forall i :: 0 <= i < |rules| ==> Fresh(rules, born).breakers[i].state == Closed
  {
    FreshProper(rules, born);
    forall i | 0 <= i < |rules|
      ensures Progress(Fresh(rules, born).breakers[i], rules[i], born, 0, t)
    {
      ProgressStart(rules[i], born, t);
    }
  }

  /** Enough entries enter while everything is closed, take longer than every rule allows, and then all fail at once:
      every breaker trips, whatever the other breakers of the resource are. */
  lemma {:induction false} TripAll(rules: seq<Rule>, born: nat, start: Millis, t: Millis)
    returns (steps: seq<Step>, n: nat)
    requires AllLoadable(rules) && born <= start && t == start + Slowest(rules)
    ensures Proper(Fresh(rules, born)) && Spans(steps, start, t)
    ensures var s := Run(Fresh(rules, born), steps);
            AllTripped(s, rules, born, t) && UnderWay(s, 0, n, start)
  {
    n := MostNeeded(rules);
    var s0 := Fresh(rules, born);
    FreshProgress(rules, born, t);
    var enter, s1 := EnterMany(s0, n, start);
    assert AllProgress(s1, rules, born, 0, t);
    var leave, s2 := LeaveMany(s1, rules, born, n, n, 0, start, t, Slowest(rules));
    RunConcat(s0, enter, leave);
    SpansConcat(enter, leave, start, start, t);
    steps := enter + leave;
  }

  // ---------------------------------------------------------------- the limit

  /** A tripped breaker with two or more probes to go, after one successful probe. */
  lemma {:induction false} FirstProbeIsNotEnough(b: Breaker, rule: Rule, born: nat, t: Millis, retry: Millis)
    requires Tripped(b, rule, born, t) && 0 < t && t + rule.retryTimeoutMs <= retry
    ensures TryPass(b, retry).1 && WellFormed(TryPass(b, retry).0)
    ensures var b' := OnRequestComplete(TryPass(b, retry).0, retry, 0, false);
            rule.probeNum >= 2 ==> b'.state == HalfOpen && TryPass(b', retry).1
  {
    TouchShape(b.stat, born, t, retry, ZERO);
  }

  /** All breakers have tripped; one entry probes them all and succeeds. */
  lemma {:induction false} OneProbe(s: System, rules: seq<Rule>, born: nat, e: nat, start: nat, t: Millis,
                                    retry: Millis, j: nat)
    requires Proper(s) && AllTripped(s, rules, born, t) && UnderWay(s, 0, e, start) && 0 < t
    requires forall i :: 0 <= i < |rules| ==> t + rules[i].retryTimeoutMs <= retry
    requires j < |rules| && rules[j].probeNum >= 2
    ensures var s' := Run(s, Enter(e, |rules|, retry) + Leave(e, |rules|, retry, false));
            && |s'.breakers| == |rules| && s'.breakers[j].state == HalfOpen && TryPass(s'.breakers[j], retry).1
            && forall x :: x in s'.entries ==> s'.entries[x].Exited?
  {
    var m := |rules|;
    forall i | 0 <= i < m
      ensures TryPass(s.breakers[i], retry).1
    {
      FirstProbeIsNotEnough(s.breakers[i], rules[i], born, t, retry);
    }
    EnterResult(s, e, retry);
    LeaveResult(Run(s, Enter(e, m, retry)), e, retry, 0, false);
    RunConcat(s, Enter(e, m, retry), Leave(e, m, retry, false));
    FirstProbeIsNotEnough(s.breakers[j], rules[j], born, t, retry);
  }

  /** With two or more probes there is a run, whatever the rule is otherwise and whichever other breakers the resource
      has, after which all entries are done and the breaker is still half-open: all breakers trip together, then one
      probe succeeds. It lets further requests probe, so it is not stuck for good either. */
  lemma {:induction false} MoreProbesStayHalfOpen(rules: seq<Rule>, born: nat, start: Millis, t: Millis, retry: Millis,
                                                  j: nat)
    returns (steps: seq<Step>)
    requires AllLoadable(rules) && j < |rules| && rules[j].probeNum >= 2
    requires RoomToRecover(rules, born, start, t, retry)
    ensures Proper(Fresh(rules, born)) && Legal(steps, born)
    ensures var s := Run(Fresh(rules, born), steps);
            && |s.breakers| == |rules| && s.breakers[j].state == HalfOpen && TryPass(s.breakers[j], retry).1
            && forall e :: e in s.entries ==> s.entries[e].Exited?
  {
    var trip, e := TripAll(rules, born, start, t);
    var s0, m := Fresh(rules, born), |rules|;
    var probe := Enter(e, m, retry) + Leave(e, m, retry, false);
    OneProbe(Run(s0, trip), rules, born, e, start, t, retry, j);
    RunConcat(s0, trip, probe);
    assert AllAt(probe, retry);
    SpansConcat(trip, probe, start, t, retry);
    steps := trip + probe;
  }

  /** The clock has room for a trip after the slowest allowed response time, and for every retry timeout after it. */
  predicate RoomToRecover(rules: seq<Rule>, born: nat, start: nat, t: nat, retry: nat) {
    && born <= start && 0 < start && t == start + Slowest(rules) && t <= retry
    && forall i :: 0 <= i < |rules| ==> t + rules[i].retryTimeoutMs <= retry
  }

  /** The breakers of a resource are decided whenever all entries are done, in every run. */
  ghost predicate AlwaysDecided(rules: seq<Rule>, born: nat)
    requires AllLoadable(rules) && Proper(Fresh(rules, born))
  {
    forall steps :: Legal(steps, born) ==> DecidedAfter(Fresh(rules, born), steps)
  }

  ghost predicate DecidedAfter(s: System, steps: seq<Step>)
    requires Proper(s)
  {
    var s' := Run(s, steps);
    (forall e :: e in s'.entries ==> s'.entries[e].Exited?) ==>
      forall i :: 0 <= i < |s'.breakers| ==> s'.breakers[i].state != HalfOpen
  }

  /** Exactly when: every run leaves all breakers of the resource decided if and only if no rule asks for more than one
      probe. */
  lemma {:induction false} DecidedIffOneProbe(rules: seq<Rule>, born: nat, start: Millis, t: Millis, retry: Millis)
    requires AllLoadable(rules) && RoomToRecover(rules, born, start, t, retry)
    ensures Proper(Fresh(rules, born))
    ensures AlwaysDecided(rules, born) <==> forall i :: 0 <= i < |rules| ==> rules[i].probeNum <= 1
  {
    FreshProper(rules, born);
    if j :| 0 <= j < |rules| && rules[j].probeNum >= 2 {
      var steps := MoreProbesStayHalfOpen(rules, born, start, t, retry, j);
      assert !DecidedAfter(Fresh(rules, born), steps);
    } else {
      forall steps | Legal(steps, born)
        ensures DecidedAfter(Fresh(rules, born), steps)
      {
        AllDecided(rules, born, steps);
      }
    }
  }

  lemma {:induction false} AllDecided(rules: seq<Rule>, born: nat, steps: seq<Step>)
    requires AllLoadable(rules) && Legal(steps, born)
    requires forall i :: 0 <= i < |rules| ==> rules[i].probeNum <= 1
    ensures Proper(Fresh(rules, born)) && DecidedAfter(Fresh(rules, born), steps)
  {
    FreshProper(rules, born);
    forall i | 0 <= i < |rules|
      ensures var s := Run(Fresh(rules, born), steps);
              (forall e :: e in s.entries ==> s.entries[e].Exited?) ==> s.breakers[i].state != HalfOpen
    {
      QuiescentIsDecided(rules, born, steps, i);
    }
  }
}
