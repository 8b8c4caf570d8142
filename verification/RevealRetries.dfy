/**
 What becomes of a reveal over a run of pkg/payload_bidder/reveal_service.go: from when on it is tried, when it is tried
 again, and when it is given up.
 */
module RevealRetries {
  import opened Common
  import opened Reveal

  /** The attempts that the setting allows; beyond the signed range it is negative as an int, which allows one. */
  function Budget(env: Env, slot: nat): nat
  {
    if env.frozen(slot).maxAttempts < TWO_TO_63 then env.frozen(slot).maxAttempts else 1
  }

  /** The end of the slot, or of the slot after it with a deadline bypass. */
  function End(env: Env, slot: nat): int
  {
    env.genesis + (slot + if env.frozen(slot).bypassDeadline then 2 else 1) * env.slotDuration
  }

  lemma EndIsExpiry(env: Env, slot: nat)
    ensures End(env, slot) == Expiry(env, slot)
  {
    assert (slot + 1) * env.slotDuration == slot * env.slotDuration + env.slotDuration;
    assert (slot + 2) * env.slotDuration == slot * env.slotDuration + 2 * env.slotDuration;
  }

  predicate NeedsVote(st: RevealState)
  {
    (st.settings.gateMode == Vote || st.settings.gateMode == VoteAndTime) && !st.voteGateMet
  }

  // ----- the attempts of the entry -----

  /** Those for the current entry are the last of all: its root's, each failed one followed after the retry interval. */
  ghost predicate OwnTries(tries: seq<Attempt>, attempts: nat, root: nat, interval: int)
  {
    && attempts <= |tries|
    && (forall i :: |tries| - attempts <= i < |tries| ==> tries[i].root == root)
    && (forall i :: |tries| - attempts <= i < |tries| - 1 ==> !tries[i].success && tries[i + 1].at >= tries[i].at + interval)
  }

  ghost predicate LastTryOk(env: Env, slot: nat, st: RevealState, last: Attempt, clock: int)
  {
    && last.at <= clock && st.attempts <= Budget(env, slot)
    && if st.done then last.success || st.attempts == Budget(env, slot)
       else !last.success && st.attempts < Budget(env, slot) && st.nextAttempt == last.at + env.frozen(slot).retryInterval
  }

  /** Without an attempt so far: given up only as suppressed or at the end, or asleep until there is something to do. */
  ghost predicate UntriedOk(env: Env, slot: nat, st: RevealState, clock: int)
  {
    if st.done then env.frozen(slot).suppressed || clock >= End(env, slot)
    else if NeedsVote(st) then End(env, slot) <= st.nextAttempt <= Later(End(env, slot), clock)
    else GateSatisfied(st, st.nextAttempt)
  }

  ghost predicate TriesOk(env: Env, slot: nat, v: SlotView, clock: int)
  {
    v.entry.Some? ==>
      var st := v.entry.value;
      && OwnTries(v.tries, st.attempts, st.root, env.frozen(slot).retryInterval)
      && (st.attempts > 0 ==> LastTryOk(env, slot, st, v.tries[|v.tries| - 1], clock))
      && (st.attempts == 0 ==> UntriedOk(env, slot, st, clock))
  }

  lemma RequestKeepsTries(env: Env, slot: nat, v: SlotView, clock: int, root: nat, participation: Option<real>, now: int)
    requires TriesOk(env, slot, v, clock) && clock <= now
    ensures TriesOk(env, slot, OnRequest(env, slot, v, root, participation, now), now)
  {
    EndIsExpiry(env, slot);
  }

  lemma VoteKeepsTries(env: Env, slot: nat, v: SlotView, clock: int, root: nat, pct: real, now: int)
    requires TriesOk(env, slot, v, clock) && SlotInv(env, slot, v, clock) && clock <= now
    ensures TriesOk(env, slot, OnVote(v, root, pct, now), now)
  {
  }

  lemma DueKeepsTries(env: Env, slot: nat, v: SlotView, clock: int, now: int, buildOk: bool, publishOk: bool)
    requires ValidEnv(env) && TriesOk(env, slot, v, clock) && SlotInv(env, slot, v, clock) && clock <= now
    ensures TriesOk(env, slot, OnDue(v, now, buildOk, publishOk), now)
  {
    EndIsExpiry(env, slot);
    if v.entry.Some? && Attempts(v.entry.value, now) {
      AttemptKeepsTries(env, slot, v, clock, now, buildOk, publishOk);
    }
  }

  lemma AttemptKeepsTries(env: Env, slot: nat, v: SlotView, clock: int, now: int, buildOk: bool, publishOk: bool)
    requires ValidEnv(env) && TriesOk(env, slot, v, clock) && SlotInv(env, slot, v, clock) && clock <= now
    requires v.entry.Some? && Attempts(v.entry.value, now)
    ensures TriesOk(env, slot, OnDue(v, now, buildOk, publishOk), now)
  {
    var st, v' := v.entry.value, OnDue(v, now, buildOk, publishOk);
    var last := Attempt(st.root, now, Succeeds(st, buildOk, publishOk), v.votes);
    assert v'.tries == v.tries + [last];
    AttemptWaited(env, slot, v, clock, now);
    OneMoreTry(v.tries, st.attempts, st.root, env.frozen(slot).retryInterval, last);
    AttemptDecides(env, slot, v, clock, now, buildOk, publishOk, last);
  }

  lemma AttemptWaited(env: Env, slot: nat, v: SlotView, clock: int, now: int)
    requires TriesOk(env, slot, v, clock) && v.entry.Some? && IsDue(v.entry.value, now)
    ensures v.entry.value.attempts > 0 ==>
      !v.tries[|v.tries| - 1].success && now >= v.tries[|v.tries| - 1].at + env.frozen(slot).retryInterval
  {
  }

  lemma OneMoreTry(tries: seq<Attempt>, attempts: nat, root: nat, interval: int, last: Attempt)
    requires OwnTries(tries, attempts, root, interval) && last.root == root
    requires attempts > 0 ==> !tries[|tries| - 1].success && last.at >= tries[|tries| - 1].at + interval
    ensures OwnTries(tries + [last], attempts + 1, root, interval)
  {
  }

  lemma AttemptDecides(env: Env, slot: nat, v: SlotView, clock: int, now: int, buildOk: bool, publishOk: bool, last: Attempt)
    requires ValidEnv(env) && SlotInv(env, slot, v, clock) && clock <= now
    requires v.entry.Some? && Attempts(v.entry.value, now)
    requires last.at == now && (last.success <==> Succeeds(v.entry.value, buildOk, publishOk))
    ensures var st' := Processed(v.entry.value, now, buildOk, publishOk);
      st'.attempts == v.entry.value.attempts + 1 && st'.root == v.entry.value.root && LastTryOk(env, slot, st', last, now)
  {
  }

  lemma StepKeepsTries(env: Env, slot: nat, v: SlotView, clock: int, e: Event)
    requires ValidEnv(env) && TriesOk(env, slot, v, clock) && SlotInv(env, slot, v, clock) && clock <= e.at
    ensures TriesOk(env, slot, SlotStep(env, slot, v, e), e.at)
  {
    match e
    case Request(s, root, participation, at) =>
      if s == slot {
        RequestKeepsTries(env, slot, v, clock, root, participation, at);
      }
    case VoteUpdate(s, root, pct, at) =>
      if s == slot {
        VoteKeepsTries(env, slot, v, clock, root, pct, at);
      }
    case Tick(at, buildOk, publishOk) => DueKeepsTries(env, slot, v, clock, at, buildOk(slot), publishOk(slot));
  }

  // ----- over every run -----

  ghost predicate AllOk(env: Env, slot: nat, v: SlotView, clock: int)
  {
    SlotInv(env, slot, v, clock) && Prompt(v, clock) && TriesOk(env, slot, v, clock)
  }

  ghost function ClockAfter(events: seq<Event>, clock: int): int
  {
    if events == [] then clock else events[|events| - 1].at
  }

  lemma {:induction false} RunKeepsTries(env: Env, slot: nat, v: SlotView, events: seq<Event>, clock: int)
    requires ValidEnv(env) && AllOk(env, slot, v, clock) && InOrder(events, clock)
    ensures AllOk(env, slot, Run(env, slot, v, events), ClockAfter(events, clock))
    decreases |events|
  {
    if events != [] {
      StepKeepsInv(env, slot, v, clock, events[0]);
      StepKeepsPrompt(env, slot, v, clock, events[0]);
      StepKeepsTries(env, slot, v, clock, events[0]);
      RunKeepsTries(env, slot, SlotStep(env, slot, v, events[0]), events[1..], events[0].at);
    }
  }

  /**
   In every run: a reveal that was tried is given up only after a success or exactly as many attempts as the budget allows,
   each after the retry interval; one that was never tried only as suppressed or at the end of its time.
   */
  lemma GivenUpOnlyWhenSpent(env: Env, slot: nat, events: seq<Event>, clock: int)
    requires ValidEnv(env) && InOrder(events, clock)
    ensures var v := Run(env, slot, FRESH, events);
      v.entry.Some? ==>
        var st := v.entry.value;
        && OwnTries(v.tries, st.attempts, st.root, env.frozen(slot).retryInterval)
        && (st.done && st.attempts > 0 ==> v.tries[|v.tries| - 1].success || st.attempts == Budget(env, slot))
        && (st.done && st.attempts == 0 ==> env.frozen(slot).suppressed || ClockAfter(events, clock) >= End(env, slot))
  {
    RunKeepsTries(env, slot, FRESH, events, clock);
  }

  ghost function LastAt(tries: seq<Attempt>): int
  {
    if tries == [] then 0 else tries[|tries| - 1].at
  }

  /** One timer round for a pending reveal. */
  ghost predicate RoundIs(env: Env, slot: nat, v: SlotView, now: int, buildOk: bool, publishOk: bool)
    requires v.entry.Some?
  {
    var st, st' := v.entry.value, Processed(v.entry.value, now, buildOk, publishOk);
    && (st.attempts > 0 ==> (Attempts(st, now) <==> now >= LastAt(v.tries) + env.frozen(slot).retryInterval))
    && (st.attempts == 0 ==> (Attempts(st, now) <==> GateSatisfied(st, now)))
    && st'.attempts == st.attempts + (if Attempts(st, now) then 1 else 0)
    && (st'.built <==> st.built || (Attempts(st, now) && buildOk))
    && (Attempts(st, now) ==> (st'.done <==> (st'.built && publishOk) || st'.attempts == Budget(env, slot)))
    && (!Attempts(st, now) ==> (st'.done <==> st.attempts == 0 && NeedsVote(st) && now >= End(env, slot)))
  }

  /**
   In every run, a timer round makes an attempt for a pending reveal exactly when its gate is open, if it was not tried yet,
   and exactly from the retry interval after its last attempt on, if it was; it goes on until a success or the last of the
   budget, and without an attempt only a reveal that waits for a vote is given up, at the end of its time.
   */
  lemma TriedExactlyWhenDue(env: Env, slot: nat, events: seq<Event>, clock: int, now: int, buildOk: bool, publishOk: bool)
    requires ValidEnv(env) && InOrder(events, clock) && now >= ClockAfter(events, clock)
    requires var entry := Run(env, slot, FRESH, events).entry; entry.Some? && !entry.value.done
    ensures RoundIs(env, slot, Run(env, slot, FRESH, events), now, buildOk, publishOk)
  {
    RunKeepsTries(env, slot, FRESH, events, clock);
    EndIsExpiry(env, slot);
    RoundOf(env, slot, Run(env, slot, FRESH, events), ClockAfter(events, clock), now, buildOk, publishOk);
  }

  lemma RoundOf(env: Env, slot: nat, v: SlotView, clock: int, now: int, buildOk: bool, publishOk: bool)
    requires ValidEnv(env) && AllOk(env, slot, v, clock) && now >= clock && v.entry.Some? && !v.entry.value.done
    ensures RoundIs(env, slot, v, now, buildOk, publishOk)
  {
    EndIsExpiry(env, slot);
  }

  // ----- what decides -----

  /** The first request for a slot is taken up exactly if it is not suppressed and comes in time; all others change nothing. */
  lemma RequestDecides(env: Env, slot: nat, v: SlotView, root: nat, participation: Option<real>, now: int)
    ensures var entry, settings := OnRequest(env, slot, v, root, participation, now).entry, env.frozen(slot);
      && entry.Some? && (v.entry.Some? ==> entry == v.entry)
      && (v.entry.None? ==>
            && entry.value.root == root && entry.value.attempts == 0
            && (!entry.value.done <==>
                  !settings.suppressed && (settings.bypassDeadline || now <= env.genesis + (slot + 1) * env.slotDuration))
            && (!entry.value.done && settings.gateMode != Time ==>
                  (entry.value.voteGateMet <==> participation.Some? && participation.value >= settings.voteThreshold))
            && (!entry.value.done ==> entry.value.timeDue == env.genesis + slot * env.slotDuration + settings.revealTime))
  {
    assert (slot + 1) * env.slotDuration == slot * env.slotDuration + env.slotDuration;
  }

  /** While a reveal waits untried, exactly the votes on its root that reach the threshold open the vote gate. */
  lemma VoteOpensGate(env: Env, slot: nat, v: SlotView, clock: int, e: Event)
    requires SlotInv(env, slot, v, clock) && clock <= e.at && v.entry.Some? && !v.entry.value.done
    requires v.entry.value.attempts == 0 && env.frozen(slot).gateMode != Time
    ensures var st, entry' := v.entry.value, SlotStep(env, slot, v, e).entry;
      entry'.Some? && !entry'.value.done && entry'.value.attempts == 0 ==>
        (entry'.value.voteGateMet <==>
           || st.voteGateMet
           || (e.VoteUpdate? && e.slot == slot && e.root == st.root && e.pct >= env.frozen(slot).voteThreshold))
  {
  }

  /** Once tried, a reveal keeps its retry schedule whatever the votes, and any vote records its gate as met. */
  lemma VoteKeepsSchedule(env: Env, slot: nat, v: SlotView, clock: int, e: Event)
    requires SlotInv(env, slot, v, clock) && v.entry.Some? && !v.entry.value.done && v.entry.value.attempts > 0
    requires e.VoteUpdate? && e.slot == slot && env.frozen(slot).gateMode != Time
    ensures var entry' := SlotStep(env, slot, v, e).entry;
      entry'.Some? && entry'.value.voteGateMet && entry'.value == v.entry.value.(voteGateMet := true)
  {
  }

  /** A marker goes with the first timer round after the end of the slot that follows, and no entry goes otherwise. */
  lemma MarkerKept(env: Env, slot: nat, v: SlotView, now: int, buildOk: bool, publishOk: bool)
    requires v.entry.Some?
    ensures OnTick(env, slot, v, now, buildOk, publishOk).entry.None? <==>
      Processed(v.entry.value, now, buildOk, publishOk).done && now > env.genesis + (slot + 2) * env.slotDuration
  {
    assert (slot + 2) * env.slotDuration == slot * env.slotDuration + 2 * env.slotDuration;
  }
}
