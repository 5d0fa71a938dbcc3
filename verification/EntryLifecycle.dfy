/** Entries of one resource going through the slot chain, in any interleaving: each breaker is asked in turn, a
    blocked entry exits at once and runs its exit hooks, a passed one completes later and notifies every breaker.
    Every call on a breaker is one step. */
module EntryLifecycle {
  import opened Clock
  import opened LeapRing
  import opened Breakers

  datatype Phase =
    | Checking(start: nat, next: nat, hooks: seq<nat>) // breakers before `next` let it pass; it probes those in `hooks`
    | Blocked(hooks: seq<nat>)                         // some slot refused it; these exit hooks are still to run
    | Passed(start: nat, hooks: seq<nat>)              // handed to the caller
    | Completing(next: nat, rt: nat, err: bool)        // exited; breakers from `next` on are not notified yet
    | Exited

  /** `owner[i]` is the entry that last moved breaker `i` to half-open. */
  datatype System = System(breakers: seq<Breaker>, entries: map<nat, Phase>, owner: seq<nat>)

  datatype Step =
    | Begin(e: nat, now: Millis)
    | EarlierBlock(e: nat, now: Millis)
    | Check(e: nat, now: Millis)
    | LaterVerdict(e: nat, now: Millis, allow: bool)
    | RunHook(e: nat, now: Millis)
    | Exit(e: nat, now: Millis, err: bool)
    | Notify(e: nat, now: Millis)

  predicate Proper(s: System) {
    |s.owner| == |s.breakers| && forall i :: 0 <= i < |s.breakers| ==> WellFormed(s.breakers[i])
  }

  function AskBreaker(s: System, e: nat, start: nat, i: nat, hooks: seq<nat>, now: Millis): System
    requires Proper(s) && i < |s.breakers|
  {
    var b := s.breakers[i];
    var (b', passed) := TryPass(b, now);
    if !passed then s.(entries := s.entries[e := Blocked(hooks)])
    else if b.state == Open then
      s.(breakers := s.breakers[i := b'], owner := s.owner[i := e],
         entries := s.entries[e := Checking(start, i + 1, hooks + [i])])
    else s.(entries := s.entries[e := Checking(start, i + 1, hooks)])
  }

  function NotifyBreaker(s: System, e: nat, i: nat, rt: nat, err: bool, now: Millis): System
    requires Proper(s)
  {
    if i < |s.breakers| then
      s.(breakers := s.breakers[i := OnRequestComplete(s.breakers[i], now, rt, err)],
         entries := s.entries[e := Completing(i + 1, rt, err)])
    else s.(entries := s.entries[e := Exited])
  }

  function RollBackProbe(s: System, e: nat, hooks: seq<nat>): System
    requires Proper(s)
  {
    if |hooks| == 0 then s.(entries := s.entries[e := Exited])
    else
      var rest := s.(entries := s.entries[e := Blocked(hooks[1..])]);
      if hooks[0] < |s.breakers| then
        rest.(breakers := s.breakers[hooks[0] := Rollback(s.breakers[hooks[0]])])
      else rest
  }

  /** One step. The response time of an entry is its exit time less its start time. A step that does not apply to the
      phase of its entry (such as a second exit) changes nothing. */
  function Next(s: System, step: Step): System
    requires Proper(s)
  {
    if step.Begin? then
      if step.e in s.entries then s else s.(entries := s.entries[step.e := Checking(step.now, 0, [])])
    else if step.e !in s.entries then s
    else
      match (step, s.entries[step.e])
      case (EarlierBlock(e, now), Checking(start, next, hooks)) =>
        if next == 0 then s.(entries := s.entries[e := Blocked(hooks)]) else s
      case (Check(e, now), Checking(start, next, hooks)) =>
        if next < |s.breakers| then AskBreaker(s, e, start, next, hooks, now) else s
      case (LaterVerdict(e, now, allow), Checking(start, next, hooks)) =>
        if next < |s.breakers| then s
        else s.(entries := s.entries[e := if allow then Passed(start, hooks) else Blocked(hooks)])
      case (RunHook(e, now), Blocked(hooks)) => RollBackProbe(s, e, hooks)
      case (Exit(e, now, err), Passed(start, hooks)) =>
        s.(entries := s.entries[e := Completing(0, Sub64(now, start), err)])
      case (Notify(e, now), Completing(next, rt, err)) => NotifyBreaker(s, e, next, rt, err, now)
      case _ => s
  }

  lemma {:induction false} NextProper(s: System, step: Step)
    requires Proper(s)
    ensures Proper(Next(s, step)) && |Next(s, step).breakers| == |s.breakers|
    ensures forall i :: 0 <= i < |s.breakers| ==> Next(s, step).breakers[i].rule == s.breakers[i].rule
  {
  }

  // ---------------------------------------------------------------- no stuck probe

  /** The entry in this phase will still move breaker `i` out of half-open before it is done. */
  predicate Pending(p: Phase, i: nat) {
    match p
    case Checking(start, next, hooks) => i in hooks
    case Blocked(hooks) => i in hooks
    case Passed(start, hooks) => i in hooks
    case Completing(next, rt, err) => next <= i
    case Exited => false
  }

  predicate Guarded(s: System, i: nat)
    requires |s.owner| == |s.breakers| && i < |s.breakers|
  {
    s.breakers[i].state == HalfOpen ==> s.owner[i] in s.entries && Pending(s.entries[s.owner[i]], i)
  }

  ghost predicate Inv(s: System, born: nat, last: nat) {
    && Proper(s)
    && forall i :: 0 <= i < |s.breakers| ==>
         Shape(s.breakers[i].stat, born, last) && Guarded(s, i) && s.breakers[i].rule.probeNum <= 1
  }

  lemma {:induction false} SameStarts<V>(r: Ring<V>, r': Ring<V>, born: nat, last: nat)
    requires Shape(r, born, last) && r'.len == r.len && r'.interval == r.interval && |r'.slots| == |r.slots|
    requires forall i :: 0 <= i < |r.slots| ==> r'.slots[i].start == r.slots[i].start
    ensures Shape(r', born, last)
  {
    forall i | 0 <= i < |r.slots|
      ensures SlotShape(r', i, born, last)
    {
      assert SlotShape(r, i, born, last);
    }
  }

  lemma {:induction false} LaterShape<V>(r: Ring<V>, born: nat, last: nat, now: nat)
    requires Shape(r, born, last) && last <= now
    ensures Shape(r, born, now)
  {
    AlignMonotone(last, now, r.len);
    forall i | 0 <= i < |r.slots|
      ensures SlotShape(r, i, born, now)
    {
      assert SlotShape(r, i, born, last);
    }
  }

  /** A completion is always counted, so a half-open breaker with at most one probe to go decides on it. */
  lemma {:induction false} CompletionDecides(b: Breaker, born: nat, last: nat, now: Millis, rt: nat, err: bool)
    requires WellFormed(b) && Shape(b.stat, born, last) && last <= now && 0 < now
    ensures Shape(OnRequestComplete(b, now, rt, err).stat, born, now)
    ensures b.rule.probeNum <= 1 ==> OnRequestComplete(b, now, rt, err).state != HalfOpen
  {
    TouchShape(b.stat, born, last, now, ZERO);
    var c := Touch(b.stat, now, ZERO).value;
    var r := Record(b.stat, now, Bad(b.rule, rt, err), COUNTERS);
    SameStarts(c, r, born, now);
    SameStarts(r, Clear(r, now, ZERO), born, now);
  }

  lemma {:induction false} NotifyKeepsInv(s: System, born: nat, last: nat, e: nat, i: nat, rt: nat, err: bool,
                                          now: Millis)
    requires Inv(s, born, last) && last <= now && 0 < now && e in s.entries && s.entries[e] == Completing(i, rt, err)
    ensures Inv(NotifyBreaker(s, e, i, rt, err, now), born, now)
  {
    var s' := NotifyBreaker(s, e, i, rt, err, now);
    forall k | 0 <= k < |s.breakers|
      ensures Shape(s'.breakers[k].stat, born, now) && Guarded(s', k) && s'.breakers[k].rule.probeNum <= 1
    {
      assert Guarded(s, k);
      if k == i {
        CompletionDecides(s.breakers[k], born, last, now, rt, err);
      } else {
        LaterShape(s.breakers[k].stat, born, last, now);
      }
    }
  }

  lemma {:induction false} HookKeepsInv(s: System, born: nat, last: nat, e: nat, hooks: seq<nat>, now: Millis)
    requires Inv(s, born, last) && last <= now && e in s.entries && s.entries[e] == Blocked(hooks)
    ensures Inv(RollBackProbe(s, e, hooks), born, now)
  {
    var s' := RollBackProbe(s, e, hooks);
    forall k | 0 <= k < |s.breakers|
      ensures Shape(s'.breakers[k].stat, born, now) && Guarded(s', k) && s'.breakers[k].rule.probeNum <= 1
    {
      assert Guarded(s, k);
      LaterShape(s.breakers[k].stat, born, last, now);
      if |hooks| > 0 {
        assert hooks == [hooks[0]] + hooks[1..];
      }
    }
  }

  lemma {:induction false} AskKeepsInv(s: System, born: nat, last: nat, e: nat, start: nat, i: nat, hooks: seq<nat>,
                                       now: Millis)
    requires Inv(s, born, last) && last <= now && e in s.entries && s.entries[e] == Checking(start, i, hooks)
    requires i < |s.breakers|
    ensures Inv(AskBreaker(s, e, start, i, hooks, now), born, now)
  {
    var s' := AskBreaker(s, e, start, i, hooks, now);
    forall k | 0 <= k < |s.breakers|
      ensures Shape(s'.breakers[k].stat, born, now) && Guarded(s', k) && s'.breakers[k].rule.probeNum <= 1
    {
      assert Guarded(s, k);
      LaterShape(s.breakers[k].stat, born, last, now);
    }
  }

  lemma {:induction false} NextKeepsInv(s: System, born: nat, last: nat, step: Step)
    requires Inv(s, born, last) && last <= step.now && 0 < step.now
    ensures Inv(Next(s, step), born, step.now)
  {
    var s' := Next(s, step);
    var e := step.e;
    if step.Notify? && e in s.entries && s.entries[e].Completing? {
      NotifyKeepsInv(s, born, last, e, s.entries[e].next, s.entries[e].rt, s.entries[e].err, step.now);
    } else if step.RunHook? && e in s.entries && s.entries[e].Blocked? {
      HookKeepsInv(s, born, last, e, s.entries[e].hooks, step.now);
    } else if step.Check? && e in s.entries && s.entries[e].Checking? && s.entries[e].next < |s.breakers| {
      AskKeepsInv(s, born, last, e, s.entries[e].start, s.entries[e].next, s.entries[e].hooks, step.now);
    } else {
      forall k | 0 <= k < |s.breakers|
        ensures Shape(s'.breakers[k].stat, born, step.now) && Guarded(s', k) && s'.breakers[k].rule.probeNum <= 1
      {
        assert Guarded(s, k);
        LaterShape(s.breakers[k].stat, born, last, step.now);
      }
    }
  }

  function Run(s: System, steps: seq<Step>): (s': System)
    requires Proper(s)
    ensures Proper(s') && |s'.breakers| == |s.breakers|
  {
    if |steps| == 0 then s
    else
      var before := Run(s, steps[..|steps| - 1]);
      NextProper(before, steps[|steps| - 1]);
      Next(before, steps[|steps| - 1])
  }

  predicate Legal(steps: seq<Step>, born: nat) {
    && (forall i :: 0 <= i < |steps| ==> born <= steps[i].now && 0 < steps[i].now)
    && (forall i, j :: 0 <= i < j < |steps| ==> steps[i].now <= steps[j].now)
  }

  function ClockAfter(steps: seq<Step>, born: nat): nat {
    if |steps| == 0 then born else steps[|steps| - 1].now
  }

  /** A resource with freshly built breakers and no entries. */
  function Fresh(rules: seq<Rule>, born: nat): System
    requires forall i :: 0 <= i < |rules| ==> ValidRule(rules[i])
  {
    System(seq(|rules|, i requires 0 <= i < |rules| => NewBreaker(rules[i], born)), map[], seq(|rules|, i => 0))
  }

  lemma {:induction false} NewBreakerShape(rule: Rule, born: nat)
    requires ValidRule(rule)
    ensures WellFormed(NewBreaker(rule, born)) && Shape(NewBreaker(rule, born).stat, born, born)
  {
    var n := BucketCount(rule);
    ExactQuotient(rule.statIntervalMs, n);
    NewRepresents(n, rule.statIntervalMs / n, born, COUNTERS);
  }

  lemma {:induction false} FreshProper(rules: seq<Rule>, born: nat)
    requires forall i :: 0 <= i < |rules| ==> ValidRule(rules[i])
    ensures Proper(Fresh(rules, born))
    ensures (forall i :: 0 <= i < |rules| ==> rules[i].probeNum <= 1) ==> Inv(Fresh(rules, born), born, born)
  {
    var s := Fresh(rules, born);
    forall i | 0 <= i < |rules|
      ensures WellFormed(s.breakers[i]) && Shape(s.breakers[i].stat, born, born) && s.breakers[i].state == Closed
      ensures s.breakers[i].rule == rules[i]
    {
      NewBreakerShape(rules[i], born);
    }
  }

  lemma {:induction false} RunKeepsInv(s: System, born: nat, steps: seq<Step>)
    requires Inv(s, born, born) && Legal(steps, born)
    ensures Inv(Run(s, steps), born, ClockAfter(steps, born))
  {
    if |steps| > 0 {
      var init := steps[..|steps| - 1];
      RunKeepsInv(s, born, init);
      NextKeepsInv(Run(s, init), born, ClockAfter(init, born), steps[|steps| - 1]);
    }
  }

  /** With at most one probe per recovery, in every reachable state a half-open breaker still has the entry that
      moved it there, whichever slot or sibling breaker blocks that entry and however others complete meanwhile. */
  lemma {:induction false} NoStuckProbe(rules: seq<Rule>, born: nat, steps: seq<Step>, i: nat)
    requires forall k :: 0 <= k < |rules| ==> ValidRule(rules[k]) && rules[k].probeNum <= 1
    requires Legal(steps, born) && i < |rules|
    ensures Proper(Fresh(rules, born))
    ensures var s := Run(Fresh(rules, born), steps);
            s.breakers[i].state == HalfOpen ==> s.owner[i] in s.entries && !s.entries[s.owner[i]].Exited?
  {
    FreshProper(rules, born);
    RunKeepsInv(Fresh(rules, born), born, steps);
    assert Guarded(Run(Fresh(rules, born), steps), i);
  }

  /** So once all entries are done, every breaker is open or closed. */
  lemma {:induction false} QuiescentIsDecided(rules: seq<Rule>, born: nat, steps: seq<Step>, i: nat)
    requires forall k :: 0 <= k < |rules| ==> ValidRule(rules[k]) && rules[k].probeNum <= 1
    requires Legal(steps, born) && i < |rules|
    ensures Proper(Fresh(rules, born))
    ensures var s := Run(Fresh(rules, born), steps);
            (forall e :: e in s.entries ==> s.entries[e].Exited?) ==> s.breakers[i].state != HalfOpen
  {
    NoStuckProbe(rules, born, steps, i);
  }
}
