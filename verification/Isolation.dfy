/** Concurrency accounting of the statistic slot, and the isolation rules that read it. Entering (check, then
    record) and exiting are atomic steps. */
module Isolation {
  import opened Clock

  const I31: int := 0x8000_0000

  datatype Rule = Rule(isConcurrency: bool, threshold: nat)

  /** Adding to a signed 32-bit counter. */
  function Wrap32(n: int): int {
    (n + I31) % U32 - I31
  }

  /** What a rule reads from the counter: a negative value reads as 0. */
  function Reading(concurrency: int): nat {
    if concurrency >= 0 then concurrency else 0
  }

  /** The 32-bit comparison of one rule; the sum wraps around. */
  predicate RuleBlocks(r: Rule, concurrency: int, batch: nat) {
    r.isConcurrency && (Reading(concurrency) + batch) % U32 > r.threshold
  }

  predicate Allows(rules: seq<Rule>, concurrency: int, batch: nat) {
    forall i :: 0 <= i < |rules| ==> !RuleBlocks(rules[i], concurrency, batch)
  }

  /** Checks the rules in order; on a block, `rule` is the first one that refuses. */
  method CheckPass(rules: seq<Rule>, concurrency: int, batch: nat) returns (passed: bool, rule: nat, snapshot: nat)
    ensures passed == Allows(rules, concurrency, batch)
    ensures !passed ==>
              rule < |rules| && RuleBlocks(rules[rule], concurrency, batch) && Allows(rules[..rule], concurrency, batch)
    ensures !passed ==> snapshot == Reading(concurrency)
  {
    var curCount: nat := 0;
    for i := 0 to |rules|
      invariant Allows(rules[..i], concurrency, batch)
    {
      if rules[i].isConcurrency {
        curCount := if concurrency >= 0 then concurrency else 0;
        if (curCount + batch) % U32 > rules[i].threshold {
          assert RuleBlocks(rules[i], concurrency, batch);
          return false, i, curCount;
        }
      }
      assert rules[..i + 1] == rules[..i] + [rules[i]];
    }
    assert rules[..|rules|] == rules;
    return true, 0, curCount;
  }

  /** The rules in numbers: those on concurrency, and no others, compare the counter (or 0 if it is negative) and the
      batch, added in 32 bits, with their threshold. */
  lemma {:induction false} AllowsIff(rules: seq<Rule>, concurrency: int, batch: nat)
    ensures Allows(rules, concurrency, batch) <==>
            forall i :: 0 <= i < |rules| && rules[i].isConcurrency ==>
                          ((if concurrency > 0 then concurrency else 0) + batch) % 4294967296 <= rules[i].threshold
  {
    assert forall i :: 0 <= i < |rules| ==>
                         (RuleBlocks(rules[i], concurrency, batch) <==>
                          rules[i].isConcurrency &&
                          ((if concurrency > 0 then concurrency else 0) + batch) % 4294967296 > rules[i].threshold);
  }

  // ---------------------------------------------------------------- runs

  datatype Status = InFlight | Done

  datatype Node = Node(concurrency: int, entries: map<nat, Status>)

  const EMPTY := Node(0, map[])

  datatype Event = Enter(e: nat, batch: nat, othersAllow: bool) | Exit(e: nat)

  /** A passed entry is counted until its first exit; a blocked one is exited at once and never counted. */
  function Step(rules: seq<Rule>, n: Node, ev: Event): Node {
    match ev
    case Enter(e, batch, othersAllow) =>
      if e in n.entries then n
      else if Allows(rules, n.concurrency, batch) && othersAllow then
        Node(Wrap32(n.concurrency + 1), n.entries[e := InFlight])
      else n.(entries := n.entries[e := Done])
    case Exit(e) =>
      if e in n.entries && n.entries[e] == InFlight then Node(Wrap32(n.concurrency - 1), n.entries[e := Done]) else n
  }

  function Run(rules: seq<Rule>, n: Node, events: seq<Event>): Node {
    if |events| == 0 then n else Step(rules, Run(rules, n, events[..|events| - 1]), events[|events| - 1])
  }

  /** The passed entries that have not exited. */
  function Live(n: Node): set<nat> {
    set e | e in n.entries && n.entries[e] == InFlight
  }

  ghost predicate Counted(n: Node) {
    n.concurrency == Wrap32(|Live(n)|)
  }

  lemma {:induction false} WrapStep(n: int)
    ensures Wrap32(Wrap32(n) + 1) == Wrap32(n + 1) && Wrap32(Wrap32(n) - 1) == Wrap32(n - 1)
  {
  }

  lemma {:induction false} WrapSmall(n: int)
    requires 0 <= n < I31
    ensures Wrap32(n) == n
  {
  }

  lemma {:induction false} StepCounts(rules: seq<Rule>, n: Node, ev: Event)
    requires Counted(n)
    ensures Counted(Step(rules, n, ev))
  {
    var n' := Step(rules, n, ev);
    WrapStep(|Live(n)|);
    if ev.Enter? && ev.e !in n.entries && n'.entries[ev.e] == InFlight {
      assert Live(n') == Live(n) + {ev.e};
    } else if ev.Exit? && ev.e in n.entries && n.entries[ev.e] == InFlight {
      assert ev.e in Live(n);
      assert Live(n') == Live(n) - {ev.e};
    } else {
      assert Live(n') == Live(n);
    }
  }

  /** Who is counted: an entry from the time it is let in by the rules and the other slots, which happens at most once,
      until it exits. */
  lemma {:induction false} LiveStep(rules: seq<Rule>, n: Node, ev: Event)
    ensures ev.Enter? ==>
              Live(Step(rules, n, ev)) ==
              if ev.e !in n.entries && Allows(rules, n.concurrency, ev.batch) && ev.othersAllow then Live(n) + {ev.e}
              else Live(n)
    ensures ev.Exit? ==> Live(Step(rules, n, ev)) == Live(n) - {ev.e}
    ensures Step(rules, n, ev).entries.Keys == if ev.Enter? then n.entries.Keys + {ev.e} else n.entries.Keys
  {
  }

  /** In every run the node's concurrency is the number of passed entries not yet exited, whatever is blocked and
      however often an entry is exited. */
  lemma {:induction false} RunCounts(rules: seq<Rule>, events: seq<Event>)
    ensures Counted(Run(rules, EMPTY, events))
  {
    if |events| == 0 {
      assert Live(EMPTY) == {};
    } else {
      RunCounts(rules, events[..|events| - 1]);
      StepCounts(rules, Run(rules, EMPTY, events[..|events| - 1]), events[|events| - 1]);
    }
  }

  /** The counter that `live` entries give, as a rule reads it: right below 2^31, and 0 from there to 2^32. */
  lemma {:induction false} ReadingOf(live: nat)
    requires live < U32
    ensures Reading(Wrap32(live)) == if live < I31 then live else 0
  {
  }

  /** A rule with as many live entries as its threshold lets one more in exactly when the batch is empty or the 32-bit
      sum overflows, or, from 2^31 on, whenever the batch alone is within the threshold. */
  lemma {:induction false} LimitBrokenIff(r: Rule, live: nat, batch: nat)
    requires r.isConcurrency && live == r.threshold < U32 && batch < U32
    ensures !RuleBlocks(r, Wrap32(live), batch) <==>
            if live < I31 then batch == 0 || live + batch >= U32 else batch <= r.threshold
  {
    ReadingOf(live);
    if live < I31 && live + batch >= U32 {
      assert (live + batch) % U32 == live + batch - U32;
    }
  }

  /** Every entry of the run has a batch that is not empty and does not overflow the sum it is compared by. */
  ghost predicate Sound(rules: seq<Rule>, events: seq<Event>) {
    forall i :: 0 <= i < |events| && events[i].Enter? ==>
      1 <= events[i].batch && Reading(Run(rules, EMPTY, events[..i]).concurrency) + events[i].batch < U32
  }

  lemma {:induction false} SoundPrefix(rules: seq<Rule>, events: seq<Event>, m: nat)
    requires Sound(rules, events) && m <= |events|
    ensures Sound(rules, events[..m])
  {
    forall i | 0 <= i < m && events[..m][i].Enter?
      ensures 1 <= events[i].batch && Reading(Run(rules, EMPTY, events[..m][..i]).concurrency) + events[i].batch < U32
    {
      assert events[..m][..i] == events[..i];
    }
  }

  lemma {:induction false} StepBounded(rules: seq<Rule>, k: nat, n: Node, ev: Event)
    requires k < |rules| && rules[k].isConcurrency && rules[k].threshold < I31
    requires Counted(n) && |Live(n)| <= rules[k].threshold
    requires ev.Enter? ==> 1 <= ev.batch && Reading(n.concurrency) + ev.batch < U32
    ensures |Live(Step(rules, n, ev))| <= rules[k].threshold
  {
    var n' := Step(rules, n, ev);
    if ev.Enter? && ev.e !in n.entries && n'.entries[ev.e] == InFlight {
      assert Live(n') == Live(n) + {ev.e};
      WrapSmall(|Live(n)|);
      assert !RuleBlocks(rules[k], n.concurrency, ev.batch);
    } else {
      assert Live(n') <= Live(n);
      SubsetSize(Live(n'), Live(n));
    }
  }

  lemma {:induction false} SubsetSize(a: set<nat>, b: set<nat>)
    requires a <= b
    ensures |a| <= |b|
  {
    assert b == a + (b - a);
  }

  lemma {:induction false} LiveBounded(rules: seq<Rule>, k: nat, events: seq<Event>)
    requires k < |rules| && rules[k].isConcurrency && rules[k].threshold < I31 && Sound(rules, events)
    ensures |Live(Run(rules, EMPTY, events))| <= rules[k].threshold
  {
    if |events| == 0 {
      assert Live(EMPTY) == {};
    } else {
      var m := |events| - 1;
      SoundPrefix(rules, events, m);
      LiveBounded(rules, k, events[..m]);
      RunCounts(rules, events[..m]);
      StepBounded(rules, k, Run(rules, EMPTY, events[..m]), events[m]);
    }
  }

  /** In every sound run no concurrency rule below 2^31 is ever exceeded, by the live entries or by the counter. */
  lemma {:induction false} RunBounded(rules: seq<Rule>, k: nat, events: seq<Event>)
    requires k < |rules| && rules[k].isConcurrency && rules[k].threshold < I31 && Sound(rules, events)
    ensures |Live(Run(rules, EMPTY, events))| <= rules[k].threshold
    ensures 0 <= Run(rules, EMPTY, events).concurrency <= rules[k].threshold
  {
    RunCounts(rules, events);
    LiveBounded(rules, k, events);
    WrapSmall(|Live(Run(rules, EMPTY, events))|);
  }

  // ---------------------------------------------------------------- exactly which limits hold

  /** `n` entries with batch 1, numbered from 0, that only the isolation rule may refuse. */
  function Ones(n: nat): seq<Event> {
    if n == 0 then [] else Ones(n - 1) + [Enter(n - 1, 1, true)]
  }

  lemma {:induction false} OnesAt(n: nat, i: nat)
    requires i < n
    ensures |Ones(n)| == n && Ones(n)[i] == Enter(i, 1, true) && Ones(n)[..i] == Ones(i)
  {
    OnesLength(n - 1);
    if i < n - 1 {
      OnesAt(n - 1, i);
      assert Ones(n)[..i] == Ones(n - 1)[..i];
    } else {
      assert Ones(n)[..i] == Ones(n - 1);
    }
  }

  lemma {:induction false} OnesLength(n: nat)
    ensures |Ones(n)| == n
  {
    if n > 0 {
      OnesLength(n - 1);
    }
  }

  /** The node after `n` such entries that all got in. */
  ghost predicate AllIn(s: Node, n: nat) {
    s.concurrency == Wrap32(n) && |Live(s)| == n && forall e :: e in s.entries ==> e < n
  }

  lemma {:induction false} OneMoreIn(rule: Rule, s: Node, n: nat, batch: nat)
    requires AllIn(s, n) && !RuleBlocks(rule, Wrap32(n), batch)
    ensures AllIn(Step([rule], s, Enter(n, batch, true)), n + 1)
  {
    assert Allows([rule], s.concurrency, batch);
    WrapStep(n);
    var s' := Step([rule], s, Enter(n, batch, true));
    assert Live(s') == Live(s) + {n};
  }

  /** A rule lets entries with batch 1 in up to its threshold, and from 2^31 on one more than that. */
  lemma {:induction false} OnesGetIn(rule: Rule, n: nat)
    requires rule.isConcurrency && rule.threshold < U32
    requires n <= if rule.threshold < I31 then rule.threshold else rule.threshold + 1
    ensures AllIn(Run([rule], EMPTY, Ones(n)), n)
  {
    if n == 0 {
      assert Live(EMPTY) == {};
    } else {
      OnesGetIn(rule, n - 1);
      ReadingOf(n - 1);
      OneMoreIn(rule, Run([rule], EMPTY, Ones(n - 1)), n - 1, 1);
      assert Ones(n)[..|Ones(n)| - 1] == Ones(n - 1);
    }
  }

  lemma {:induction false} OnesSound(rule: Rule, n: nat)
    requires rule.isConcurrency && rule.threshold < U32
    requires n <= if rule.threshold < I31 then rule.threshold else rule.threshold + 1
    ensures Sound([rule], Ones(n))
  {
    OnesLength(n);
    forall i | 0 <= i < |Ones(n)|
      ensures Ones(n)[i] == Enter(i, 1, true) && Reading(Run([rule], EMPTY, Ones(n)[..i]).concurrency) + 1 < U32
    {
      OnesAt(n, i);
      OnesGetIn(rule, i);
      ReadingOf(i);
    }
  }

  /** The rule is never exceeded by live entries, in any sound run. */
  ghost predicate Holds(rule: Rule) {
    forall events :: Sound([rule], events) ==> |Live(Run([rule], EMPTY, events))| <= rule.threshold
  }

  /** Sound runs keep a rule if and only if its threshold is below 2^31. From there on the signed counter of a full rule
      is negative and reads as 0, so that the next entry gets in. */
  lemma {:induction false} LimitHoldsIff(rule: Rule)
    requires rule.isConcurrency && rule.threshold < U32
    ensures Holds(rule) <==> rule.threshold < I31
  {
    if rule.threshold < I31 {
      forall events | Sound([rule], events)
        ensures |Live(Run([rule], EMPTY, events))| <= rule.threshold
      {
        RunBounded([rule], 0, events);
      }
    } else {
      var n := rule.threshold + 1;
      OnesSound(rule, n);
      OnesGetIn(rule, n);
      assert |Live(Run([rule], EMPTY, Ones(n)))| > rule.threshold;
    }
  }

  predicate Batches(events: seq<Event>, batch: nat) {
    forall i :: 0 <= i < |events| && events[i].Enter? ==> events[i].batch == 1 || events[i].batch == batch
  }

  /** The rule is never exceeded when every batch is 1 or `batch`. */
  ghost predicate HoldsFor(rule: Rule, batch: nat) {
    forall events :: Batches(events, batch) ==> |Live(Run([rule], EMPTY, events))| <= rule.threshold
  }

  lemma {:induction false} BatchesBounded(rule: Rule, batch: nat, events: seq<Event>)
    requires rule.isConcurrency && rule.threshold < I31 && 1 <= batch && rule.threshold + batch < U32
    requires Batches(events, batch)
    ensures |Live(Run([rule], EMPTY, events))| <= rule.threshold
  {
    if |events| == 0 {
      assert Live(EMPTY) == {};
    } else {
      var init, ev := events[..|events| - 1], events[|events| - 1];
      assert forall i :: 0 <= i < |init| ==> init[i] == events[i];
      BatchesBounded(rule, batch, init);
      RunCounts([rule], init);
      ReadingOf(|Live(Run([rule], EMPTY, init))|);
      StepBounded([rule], 0, Run([rule], EMPTY, init), ev);
    }
  }

  /** And which batches break a rule below 2^31 beside ordinary ones: exactly 0, and those that overflow when the rule
      is full. The run fills the rule with batches of 1 and then adds the other one. */
  lemma {:induction false} BatchBreaksIff(rule: Rule, batch: nat)
    requires rule.isConcurrency && rule.threshold < I31 && batch < U32
    ensures HoldsFor(rule, batch) <==> 1 <= batch && rule.threshold + batch < U32
  {
    var n := rule.threshold;
    if 1 <= batch && n + batch < U32 {
      forall events | Batches(events, batch)
        ensures |Live(Run([rule], EMPTY, events))| <= n
      {
        BatchesBounded(rule, batch, events);
      }
    } else {
      var full, last := Ones(n), Enter(n, batch, true);
      OnesLength(n);
      forall i | 0 <= i < n
        ensures full[i] == Enter(i, 1, true)
      {
        OnesAt(n, i);
      }
      OnesGetIn(rule, n);
      LimitBrokenIff(rule, n, batch);
      OneMoreIn(rule, Run([rule], EMPTY, full), n, batch);
      assert (full + [last])[..n] == full;
      assert Batches(full + [last], batch) && |Live(Run([rule], EMPTY, full + [last]))| > n;
    }
  }
}
