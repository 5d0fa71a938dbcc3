/** What becomes of an entry, told from the steps of the run and the answers of the breakers alone: who is let through,
    who is refused, and what the breakers are told in the end. */
module EntryFates {
  import opened Breakers
  import opened Clock
  import opened EntryLifecycle

  datatype Later = Unasked | Allowed | Denied

  /** The story of one entry: when it began, whether a slot before the breakers refused it, the answers of the breakers
      in the order they were asked, which of them it made half-open and for how many of those an exit hook has run, the
      verdict of the slots after them, when and how the caller exited it, and how many breakers were told. */
  datatype Story = Story(begun: bool, start: nat, barred: bool, answers: seq<bool>, probed: seq<nat>, undone: nat,
                         later: Later, exited: bool, exit: nat, err: bool, told: nat)

  const UNTOLD := Story(false, 0, false, [], [], 0, Unasked, false, 0, false, 0)

  predicate AllTrue(answers: seq<bool>) {
    forall i :: 0 <= i < |answers| ==> answers[i]
  }

  predicate Undecided(h: Story) {
    h.begun && !h.barred && AllTrue(h.answers) && h.later == Unasked
  }

  predicate Refused(h: Story) {
    h.begun && (h.barred || !AllTrue(h.answers) || h.later == Denied)
  }

  /** No slot before the breakers refused it, each of the `n` breakers said yes, and so did the slots after them. */
  predicate Admitted(h: Story, n: nat) {
    h.begun && !h.barred && |h.answers| == n && AllTrue(h.answers) && h.later == Allowed
  }

  /** One more step of this entry, at which the breakers are as given. */
  function Tell(h: Story, breakers: seq<Breaker>, step: Step): Story {
    match step
    case Begin(e, now) => if h.begun then h else h.(begun := true, start := now)
    case EarlierBlock(e, now) => if Undecided(h) && h.answers == [] then h.(barred := true) else h
    case Check(e, now) =>
      if Undecided(h) && |h.answers| < |breakers| then
        var b := breakers[|h.answers|];
        h.(answers := h.answers + [TryPass(b, now).1],
           probed := if b.state == Open && TryPass(b, now).1 then h.probed + [|h.answers|] else h.probed)
      else h
    case LaterVerdict(e, now, allow) =>
      if Undecided(h) && |h.answers| == |breakers| then h.(later := if allow then Allowed else Denied) else h
    case RunHook(e, now) => if Refused(h) && h.undone < |h.probed| then h.(undone := h.undone + 1) else h
    case Exit(e, now, err) =>
      if Admitted(h, |breakers|) && !h.exited then h.(exited := true, exit := now, err := err) else h
    case Notify(e, now) => if h.exited && h.told < |breakers| then h.(told := h.told + 1) else h
  }

  function History(s: System, steps: seq<Step>, e: nat): Story
    requires Proper(s)
  {
    if |steps| == 0 then UNTOLD
    else
      var init, step := steps[..|steps| - 1], steps[|steps| - 1];
      if step.e == e then Tell(History(s, init, e), Run(s, init).breakers, step) else History(s, init, e)
  }

  // ---------------------------------------------------------------- the phases follow the stories

  predicate Fits(p: Phase, h: Story, n: nat) {
    match p
    case Checking(start, next, hooks) =>
      Undecided(h) && next == |h.answers| && start == h.start && !h.exited && hooks == h.probed && h.undone == 0
    case Blocked(hooks) => Refused(h) && !h.exited && h.undone <= |h.probed| && hooks == h.probed[h.undone..]
    case Passed(start, hooks) => Admitted(h, n) && start == h.start && !h.exited
    case Completing(next, rt, err) =>
      Admitted(h, n) && h.exited && next == h.told && rt == Sub64(h.exit, h.start) && err == h.err
    case Exited =>
      || (Refused(h) && !h.exited && h.undone == |h.probed|)
      || (Admitted(h, n) && h.exited && h.told == n)
  }

  predicate Matches(s: System, e: nat, h: Story) {
    && |h.answers| <= |s.breakers| && h.told <= |s.breakers| && (!h.exited ==> h.told == 0)
    && h.undone <= |h.probed| && (forall i :: 0 <= i < |h.probed| ==> h.probed[i] < |s.breakers|)
    && (if e in s.entries then h.begun && Fits(s.entries[e], h, |s.breakers|) else h == UNTOLD)
  }

  lemma {:induction false} AnswerAdded(answers: seq<bool>, answer: bool)
    ensures AllTrue(answers + [answer]) <==> AllTrue(answers) && answer
  {
    if AllTrue(answers + [answer]) {
      assert (answers + [answer])[|answers|];
      forall i | 0 <= i < |answers|
        ensures answers[i]
      {
        assert (answers + [answer])[i];
      }
    }
  }

  lemma {:induction false} CheckMatches(s: System, e: nat, h: Story, now: Millis)
    requires Proper(s) && Matches(s, e, h)
    ensures Matches(Next(s, Check(e, now)), e, Tell(h, s.breakers, Check(e, now)))
  {
    if e in s.entries && s.entries[e].Checking? && s.entries[e].next < |s.breakers| {
      AnswerAdded(h.answers, TryPass(s.breakers[|h.answers|], now).1);
    }
  }

  lemma {:induction false} NotifyMatches(s: System, e: nat, h: Story, now: Millis)
    requires Proper(s) && Matches(s, e, h)
    ensures Matches(Next(s, Notify(e, now)), e, Tell(h, s.breakers, Notify(e, now)))
  {
  }

  lemma {:induction false} HookMatches(s: System, e: nat, h: Story, now: Millis)
    requires Proper(s) && Matches(s, e, h)
    ensures Matches(Next(s, RunHook(e, now)), e, Tell(h, s.breakers, RunHook(e, now)))
  {
    if e in s.entries && s.entries[e].Blocked? && h.undone < |h.probed| {
      assert h.probed[h.undone..][1..] == h.probed[h.undone + 1..];
    }
  }

  lemma {:induction false} OwnStep(s: System, h: Story, step: Step)
    requires Proper(s) && Matches(s, step.e, h)
    ensures Matches(Next(s, step), step.e, Tell(h, s.breakers, step))
  {
    match step
    case Check(e, now) => CheckMatches(s, e, h, now);
    case Notify(e, now) => NotifyMatches(s, e, h, now);
    case RunHook(e, now) => HookMatches(s, e, h, now);
    case _ =>
  }

  lemma {:induction false} OthersStep(s: System, e: nat, h: Story, step: Step)
    requires Proper(s) && Matches(s, e, h) && step.e != e
    ensures Matches(Next(s, step), e, h)
  {
    NextProper(s, step);
    assert e in Next(s, step).entries <==> e in s.entries;
    assert e in s.entries ==> Next(s, step).entries[e] == s.entries[e];
  }

  /** In every run from a resource without entries, the phase of every entry is the one its story tells. */
  lemma {:induction false} PhaseFollowsStory(s: System, steps: seq<Step>, e: nat)
    requires Proper(s) && s.entries == map[]
    ensures Matches(Run(s, steps), e, History(s, steps, e))
  {
    if |steps| > 0 {
      var init, step := steps[..|steps| - 1], steps[|steps| - 1];
      PhaseFollowsStory(s, init, e);
      if step.e == e {
        OwnStep(Run(s, init), History(s, init, e), step);
      } else {
        OthersStep(Run(s, init), e, History(s, init, e), step);
      }
    }
  }

  // ---------------------------------------------------------------- who passes

  /** After `k` steps the entry is with the caller. */
  predicate PassedAt(s: System, steps: seq<Step>, e: nat, k: nat)
    requires Proper(s) && k <= |steps|
  {
    e in Run(s, steps[..k]).entries && Run(s, steps[..k]).entries[e].Passed?
  }

  /** A verdict is final. */
  lemma {:induction false} VerdictFinal(h: Story, breakers: seq<Breaker>, step: Step)
    ensures Refused(h) ==> Refused(Tell(h, breakers, step)) && Tell(h, breakers, step).answers == h.answers
    ensures Admitted(h, |breakers|) ==> Admitted(Tell(h, breakers, step), |breakers|)
  {
  }

  lemma {:induction false} NewlyAdmitted(s: System, h: Story, step: Step)
    requires Proper(s) && Matches(s, step.e, h)
    requires !Admitted(h, |s.breakers|) && Admitted(Tell(h, s.breakers, step), |s.breakers|)
    ensures step.e in Next(s, step).entries && Next(s, step).entries[step.e].Passed?
  {
  }

  lemma {:induction false} PassedAtPrefix(s: System, steps: seq<Step>, e: nat, m: nat, k: nat)
    requires Proper(s) && k <= m <= |steps|
    ensures PassedAt(s, steps[..m], e, k) == PassedAt(s, steps, e, k)
  {
    assert steps[..m][..k] == steps[..k];
  }

  lemma {:induction false} AdmittedStays(s: System, steps: seq<Step>, e: nat, k: nat)
    requires Proper(s) && k <= |steps|
    ensures Admitted(History(s, steps[..k], e), |s.breakers|) ==> Admitted(History(s, steps, e), |s.breakers|)
    ensures Refused(History(s, steps[..k], e)) ==> Refused(History(s, steps, e))
  {
    if k < |steps| {
      var init := steps[..|steps| - 1];
      assert init[..k] == steps[..k];
      AdmittedStays(s, init, e, k);
      VerdictFinal(History(s, init, e), Run(s, init).breakers, steps[|steps| - 1]);
    } else {
      assert steps[..k] == steps;
    }
  }

  lemma {:induction false} AdmittedHasPassed(s: System, steps: seq<Step>, e: nat) returns (k: nat)
    requires Proper(s) && s.entries == map[] && Admitted(History(s, steps, e), |s.breakers|)
    ensures k <= |steps| && PassedAt(s, steps, e, k)
  {
    var init, step := steps[..|steps| - 1], steps[|steps| - 1];
    if Admitted(History(s, init, e), |s.breakers|) {
      k := AdmittedHasPassed(s, init, e);
      PassedAtPrefix(s, steps, e, |steps| - 1, k);
    } else {
      PhaseFollowsStory(s, init, e);
      NewlyAdmitted(Run(s, init), History(s, init, e), step);
      k := |steps|;
      assert steps[..k] == steps;
    }
  }

  /** An entry is handed to the caller at some point of the run if and only if no slot before the breakers refused it,
      every breaker, asked in order, each at the time of its check, let it pass, and the slots after them allowed it. */
  lemma {:induction false} PassedIff(s: System, steps: seq<Step>, e: nat)
    requires Proper(s) && s.entries == map[]
    ensures (exists k :: 0 <= k <= |steps| && PassedAt(s, steps, e, k)) <==>
            Admitted(History(s, steps, e), |s.breakers|)
  {
    if Admitted(History(s, steps, e), |s.breakers|) {
      var k := AdmittedHasPassed(s, steps, e);
    }
    forall k | 0 <= k <= |steps| && PassedAt(s, steps, e, k)
      ensures Admitted(History(s, steps, e), |s.breakers|)
    {
      PhaseFollowsStory(s, steps[..k], e);
      AdmittedStays(s, steps, e, k);
    }
  }

  lemma {:induction false} PrefixOf(a: seq<Step>, b: seq<Step>)
    ensures (a + b)[..|a|] == a
  {
  }

  /** An entry refused anywhere is never with the caller or completing in any later state. */
  lemma {:induction false} RefusedForGood(s: System, steps: seq<Step>, more: seq<Step>, e: nat)
    requires Proper(s) && s.entries == map[] && Refused(History(s, steps, e))
    ensures var later := Run(s, steps + more);
            e in later.entries && (later.entries[e].Blocked? || later.entries[e].Exited?)
  {
    PrefixOf(steps, more);
    AdmittedStays(s, steps + more, e, |steps|);
    PhaseFollowsStory(s, steps + more, e);
  }

  // ---------------------------------------------------------------- what the breakers are told

  /** What one step does to a breaker, told from the story of its entry: the breaker is told of the entry when it is its
      turn after the caller exited it, with the time from begin to exit and the error reported; it answers a check when
      it is its turn; it goes back to open when it is its turn among those the refused entry made half-open; and
      otherwise it stays exactly as it is. */
  function After(b: Breaker, h: Story, step: Step, i: nat): Breaker
    requires WellFormed(b)
  {
    if step.Notify? && h.exited && h.told == i then OnRequestComplete(b, step.now, Sub64(h.exit, h.start), h.err)
    else if step.Check? && Undecided(h) && |h.answers| == i then TryPass(b, step.now).0
    else if step.RunHook? && Refused(h) && h.undone < |h.probed| && h.probed[h.undone] == i then Rollback(b)
    else b
  }

  /** In every run that is what every step does to every breaker. */
  lemma {:induction false} StepDoes(s: System, steps: seq<Step>, step: Step, i: nat)
    requires Proper(s) && s.entries == map[] && i < |s.breakers|
    ensures var before := Run(s, steps);
            && |Next(before, step).breakers| == |s.breakers|
            && Next(before, step).breakers[i] == After(before.breakers[i], History(s, steps, step.e), step, i)
  {
    PhaseFollowsStory(s, steps, step.e);
    NextProper(Run(s, steps), step);
    BreakerChange(Run(s, steps), History(s, steps, step.e), step, i);
  }

  lemma {:induction false} AfterStat(b: Breaker, h: Story, step: Step, i: nat)
    requires WellFormed(b) && !(step.Notify? && h.exited && h.told == i)
    ensures After(b, h, step, i).stat == b.stat
  {
  }

  /** So in every run a counter changes only when a breaker is told of an entry. Since an entry exits only once admitted
      and the turns only go up, an admitted entry is counted once by each breaker and a refused one by none. */
  lemma {:induction false} CountedOnce(s: System, steps: seq<Step>, step: Step, i: nat)
    requires Proper(s) && s.entries == map[] && i < |s.breakers|
    ensures var before := Run(s, steps);
            var h := History(s, steps, step.e);
            var turn := step.Notify? && h.exited && h.told == i;
            && |Next(before, step).breakers| == |s.breakers|
            && (!turn ==> Next(before, step).breakers[i].stat == before.breakers[i].stat)
            && (h.exited ==> Admitted(h, |s.breakers|))
            && h.told <= History(s, steps + [step], step.e).told <= |s.breakers|
            && (turn ==> History(s, steps + [step], step.e).told == i + 1)
  {
    var h := History(s, steps, step.e);
    StepDoes(s, steps, step, i);
    PhaseFollowsStory(s, steps, step.e);
    StoryNext(s, steps, step);
    if !(step.Notify? && h.exited && h.told == i) {
      AfterStat(Run(s, steps).breakers[i], h, step, i);
    }
  }

  lemma {:induction false} StoryNext(s: System, steps: seq<Step>, step: Step)
    requires Proper(s)
    ensures History(s, steps + [step], step.e) == Tell(History(s, steps, step.e), Run(s, steps).breakers, step)
  {
    PrefixOf(steps, [step]);
  }

  lemma {:induction false} BreakerChange(s: System, h: Story, step: Step, i: nat)
    requires Proper(s) && Matches(s, step.e, h) && i < |s.breakers| && |Next(s, step).breakers| == |s.breakers|
    ensures Next(s, step).breakers[i] == After(s.breakers[i], h, step, i)
  {
  }

  /** An entry that is done was refused and all its probes have been taken back, or was admitted and every breaker
      told. */
  lemma {:induction false} DoneIsTold(s: System, steps: seq<Step>, e: nat)
    requires Proper(s) && s.entries == map[]
    ensures var h := History(s, steps, e);
            e in Run(s, steps).entries && Run(s, steps).entries[e].Exited? ==>
              || (Refused(h) && h.undone == |h.probed|)
              || (Admitted(h, |s.breakers|) && h.told == |s.breakers|)
  {
    PhaseFollowsStory(s, steps, e);
  }

  // ---------------------------------------------------------------- probes

  /** The step asks breaker `i` on behalf of its entry. */
  predicate Asks(s: System, steps: seq<Step>, step: Step, i: nat)
    requires Proper(s)
  {
    step.Check? && Undecided(History(s, steps, step.e)) && |History(s, steps, step.e).answers| == i
  }

  /** Entries that ask breaker `i` from step `from` on, and those it lets through. */
  function Asked(s: System, steps: seq<Step>, i: nat, from: nat): nat
    requires Proper(s)
  {
    if |steps| <= from then 0
    else
      var init, step := steps[..|steps| - 1], steps[|steps| - 1];
      Asked(s, init, i, from) + if Asks(s, init, step, i) then 1 else 0
  }

  function LetThrough(s: System, steps: seq<Step>, i: nat, from: nat): nat
    requires Proper(s) && i < |s.breakers|
  {
    if |steps| <= from then 0
    else
      var init, step := steps[..|steps| - 1], steps[|steps| - 1];
      LetThrough(s, init, i, from) +
      if Asks(s, init, step, i) && TryPass(Run(s, init).breakers[i], step.now).1 then 1 else 0
  }

  lemma {:induction false} RunKeepsRules(s: System, steps: seq<Step>, i: nat)
    requires Proper(s) && i < |s.breakers|
    ensures Run(s, steps).breakers[i].rule == s.breakers[i].rule
  {
    if |steps| > 0 {
      RunKeepsRules(s, steps[..|steps| - 1], i);
      NextProper(Run(s, steps[..|steps| - 1]), steps[|steps| - 1]);
    }
  }

  /** Only a check that breaker `i` answers can make it half-open, and its entry is then the owner. */
  lemma {:induction false} ProbeStep(s: System, h: Story, step: Step, i: nat)
    requires Proper(s) && Matches(s, step.e, h) && i < |s.breakers| && |Next(s, step).breakers| == |s.breakers|
    requires |Next(s, step).owner| == |s.owner|
    requires s.breakers[i].state == Open && Next(s, step).breakers[i].state == HalfOpen
    ensures step.Check? && Undecided(h) && |h.answers| == i && TryPass(s.breakers[i], step.now).1
    ensures Next(s, step).owner[i] == step.e
  {
  }

  /** Step `from` found the breaker open, and it has been half-open ever since. */
  predicate HalfOpenSince(s: System, steps: seq<Step>, i: nat, from: nat)
    requires Proper(s) && i < |s.breakers|
  {
    && from < |steps| && Run(s, steps).breakers[i].state == HalfOpen
    && var init := steps[..|steps| - 1];
       if from == |init| then Run(s, init).breakers[i].state == Open else HalfOpenSince(s, init, i, from)
  }

  lemma {:induction false} IsHalfOpenSince(s: System, steps: seq<Step>, i: nat, from: nat)
    requires Proper(s) && i < |s.breakers| && from < |steps|
    requires Run(s, steps[..from]).breakers[i].state == Open
    requires forall k :: from < k <= |steps| ==> Run(s, steps[..k]).breakers[i].state == HalfOpen
    ensures HalfOpenSince(s, steps, i, from)
  {
    var init := steps[..|steps| - 1];
    assert steps[..|steps|] == steps;
    if from < |init| {
      assert init[..from] == steps[..from];
      forall k | from < k <= |init|
        ensures Run(s, init[..k]).breakers[i].state == HalfOpen
      {
        assert init[..k] == steps[..k];
      }
      IsHalfOpenSince(s, init, i, from);
    }
  }

  lemma {:induction false} FirstProbe(s: System, init: seq<Step>, step: Step, i: nat)
    requires Proper(s) && s.entries == map[] && i < |s.breakers|
    requires Run(s, init).breakers[i].state == Open && Run(s, init + [step]).breakers[i].state == HalfOpen
    ensures Asks(s, init, step, i) && TryPass(Run(s, init).breakers[i], step.now).1
    ensures Run(s, init + [step]).owner[i] == step.e
  {
    PrefixOf(init, [step]);
    PhaseFollowsStory(s, init, step.e);
    NextProper(Run(s, init), step);
    ProbeStep(Run(s, init), History(s, init, step.e), step, i);
  }

  /** One more step that finds the breaker half-open. */
  lemma {:induction false} LaterProbe(s: System, init: seq<Step>, step: Step, i: nat, from: nat)
    requires Proper(s) && i < |s.breakers| && from < |init| && Run(s, init).breakers[i].state == HalfOpen
    ensures LetThrough(s, init + [step], i, from) - LetThrough(s, init, i, from) ==
            if s.breakers[i].rule.probeNum == 0 then 0 else Asked(s, init + [step], i, from) - Asked(s, init, i, from)
  {
    PrefixOf(init, [step]);
    RunKeepsRules(s, init, i);
  }

  lemma {:induction false} ProbesSince(s: System, steps: seq<Step>, i: nat, from: nat)
    requires Proper(s) && s.entries == map[] && i < |s.breakers| && HalfOpenSince(s, steps, i, from)
    ensures LetThrough(s, steps, i, from) ==
            if s.breakers[i].rule.probeNum == 0 then 1 else Asked(s, steps, i, from)
  {
    var init, step := steps[..|steps| - 1], steps[|steps| - 1];
    assert steps == init + [step];
    if from < |init| {
      ProbesSince(s, init, i, from);
      LaterProbe(s, init, step, i, from);
    } else {
      FirstProbe(s, init, step, i);
    }
  }

  /** From the step that makes a breaker half-open until its state changes again, a breaker without a configured number
      of probes lets through the entry that made the move and no other, whatever the other entries do; with one
      configured, it lets through every entry that asks. */
  lemma {:induction false} OneProbePerRecovery(s: System, steps: seq<Step>, i: nat, from: nat)
    requires Proper(s) && s.entries == map[] && i < |s.breakers| && from < |steps|
    requires Run(s, steps[..from]).breakers[i].state == Open
    requires forall k :: from < k <= |steps| ==> Run(s, steps[..k]).breakers[i].state == HalfOpen
    ensures Asks(s, steps[..from], steps[from], i) && Run(s, steps[..from + 1]).owner[i] == steps[from].e
    ensures LetThrough(s, steps, i, from) ==
            if s.breakers[i].rule.probeNum == 0 then 1 else Asked(s, steps, i, from)
  {
    assert steps[..from + 1] == steps[..from] + [steps[from]];
    FirstProbe(s, steps[..from], steps[from], i);
    IsHalfOpenSince(s, steps, i, from);
    ProbesSince(s, steps, i, from);
  }
}
