/**
 The reveal scheduler of pkg/payload_bidder/reveal_service.go, one slot at a time:
 what each handler of the main loop does to the slot's entry in `pending`. Times
 are integers (milliseconds); participation is an exact percentage.
 */
module Reveal {
  import opened Common

  datatype GateMode = Vote | VoteOrTime | VoteAndTime | Time

  /** The slot's frozen reveal settings. */
  datatype Settings = Settings(
    suppressed: bool,
    gateMode: GateMode,
    revealTime: int,
    voteThreshold: real,
    maxAttempts: nat,
    retryInterval: int,
    bypassDeadline: bool)

  /** Genesis, slot length and the frozen settings of every slot. */
  datatype Env = Env(genesis: int, slotDuration: nat, frozen: nat -> Settings)


  /** int(settings.MaxAttempts) */
  function MaxAttempts(settings: Settings): int
  {
    var m := settings.maxAttempts % TWO_TO_64;
    if m < TWO_TO_63 then m else m - TWO_TO_64
  }

  /** Freezing clamps the retry budget to at least one attempt. */
  ghost predicate ValidEnv(env: Env)
  {
    forall slot :: 1 <= env.frozen(slot).maxAttempts < TWO_TO_64
  }

  function SlotStart(env: Env, slot: nat): int
  {
    env.genesis + slot * env.slotDuration
  }

  function TimeDue(env: Env, slot: nat): int
  {
    SlotStart(env, slot) + env.frozen(slot).revealTime
  }

  function Deadline(env: Env, slot: nat): int
  {
    SlotStart(env, slot) + env.slotDuration
  }

  function Expiry(env: Env, slot: nat): int
  {
    if env.frozen(slot).bypassDeadline then Deadline(env, slot) + env.slotDuration else Deadline(env, slot)
  }

  datatype RevealState = RevealState(
    root: nat, // the committing beacon block
    settings: Settings,
    attempts: nat,
    built: bool, // the envelope exists
    voteGateMet: bool,
    timeDue: int,
    expiry: int,
    nextAttempt: int,
    done: bool)

  predicate VoteGated(st: RevealState)
  {
    st.settings.gateMode != Time
  }

  predicate GateSatisfied(st: RevealState, now: int)
  {
    match st.settings.gateMode
    case Vote => st.voteGateMet
    case VoteOrTime => st.voteGateMet || now >= st.timeDue
    case VoteAndTime => st.voteGateMet && now >= st.timeDue
    case Time => now >= st.timeDue
  }

  // ----- schedule -----

  function FinishedMarker(env: Env, slot: nat, root: nat): RevealState
  {
    RevealState(root, env.frozen(slot), 0, false, false, 0, 0, 0, true)
  }

  function Later(a: int, b: int): int
  {
    if a < b then b else a
  }

  /** The slot's new entry; `participation` is what the vote tracker knows about the committing root. */
  function Scheduled(env: Env, slot: nat, root: nat, participation: Option<real>, now: int): RevealState
  {
    var settings := env.frozen(slot);
    if settings.suppressed then FinishedMarker(env, slot, root)
    else if !settings.bypassDeadline && now > Deadline(env, slot) then FinishedMarker(env, slot, root)
    else
      var met := settings.gateMode != Time && participation.Some? && participation.value >= settings.voteThreshold;
      var first :=
        match settings.gateMode
        case Vote => if met then now else Expiry(env, slot)
        case VoteOrTime => if met then now else TimeDue(env, slot)
        case VoteAndTime => if met then TimeDue(env, slot) else Expiry(env, slot)
        case Time => TimeDue(env, slot);
      RevealState(root, settings, 0, false, met, TimeDue(env, slot), Expiry(env, slot), Later(first, now), false)
  }

  // ----- handleVoteUpdate -----

  function Voted(st: RevealState, root: nat, participation: real, now: int): RevealState
  {
    if st.done || st.voteGateMet || !VoteGated(st) then st
    else if st.attempts > 0 then st.(voteGateMet := true)
    else if root != st.root || participation < st.settings.voteThreshold then st
    else st.(voteGateMet := true,
             nextAttempt := if st.settings.gateMode.VoteAndTime? && st.timeDue > now then st.timeDue else now)
  }

  // ----- processDue -----

  predicate IsDue(st: RevealState, now: int)
  {
    !st.done && st.nextAttempt <= now
  }

  predicate Attempts(st: RevealState, now: int)
  {
    IsDue(st, now) && GateSatisfied(st, now)
  }

  predicate Succeeds(st: RevealState, buildOk: bool, publishOk: bool)
  {
    (st.built || buildOk) && publishOk
  }

  function AfterFailure(st: RevealState, now: int): RevealState
  {
    if st.attempts >= MaxAttempts(st.settings) then st.(done := true)
    else st.(nextAttempt := now + st.settings.retryInterval)
  }

  function Processed(st: RevealState, now: int, buildOk: bool, publishOk: bool): RevealState
  {
    if !IsDue(st, now) then st
    else if !GateSatisfied(st, now) then
      if now < st.expiry then st.(nextAttempt := st.expiry) else st.(done := true)
    else
      var tried := st.(attempts := st.attempts + 1, built := st.built || buildOk);
      if Succeeds(st, buildOk, publishOk) then tried.(done := true) else AfterFailure(tried, now)
  }

  // ----- pruneDone -----

  function Pruned(env: Env, slot: nat, st: RevealState, now: int): Option<RevealState>
  {
    if st.done && now > SlotStart(env, slot) + 2 * env.slotDuration then None else Some(st)
  }

  // ----- one slot over a run of the main loop -----

  datatype VoteSeen = VoteSeen(root: nat, participation: real)

  /** A publish attempt, with the votes that had been reported to the service for the slot by then. */
  datatype Attempt = Attempt(root: nat, at: int, success: bool, votes: set<VoteSeen>)

  /** The slot's entry, the votes reported for the slot, and the attempts made for it so far. */
  datatype SlotView = SlotView(entry: Option<RevealState>, votes: set<VoteSeen>, tries: seq<Attempt>)

  datatype Event =
    | Request(slot: nat, root: nat, participation: Option<real>, at: int)
    | VoteUpdate(slot: nat, root: nat, pct: real, at: int)
    | Tick(at: int, buildOk: nat -> bool, publishOk: nat -> bool)

  function OnRequest(env: Env, slot: nat, v: SlotView, root: nat, participation: Option<real>, now: int): SlotView
  {
    if v.entry.Some? then v
    else
      var st := Scheduled(env, slot, root, participation, now);
      v.(entry := Some(st),
         votes := if !st.done && VoteGated(st) && participation.Some?
                  then v.votes + {VoteSeen(root, participation.value)} else v.votes)
  }

  function OnVote(v: SlotView, root: nat, pct: real, now: int): SlotView
  {
    v.(votes := v.votes + {VoteSeen(root, pct)},
       entry := if v.entry.Some? then Some(Voted(v.entry.value, root, pct, now)) else None)
  }

  function OnDue(v: SlotView, now: int, buildOk: bool, publishOk: bool): SlotView
  {
    if v.entry.None? then v
    else
      var st := v.entry.value;
      v.(entry := Some(Processed(st, now, buildOk, publishOk)),
         tries := if Attempts(st, now) then v.tries + [Attempt(st.root, now, Succeeds(st, buildOk, publishOk), v.votes)]
                  else v.tries)
  }

  function OnPrune(env: Env, slot: nat, v: SlotView, now: int): SlotView
  {
    if v.entry.None? then v else v.(entry := Pruned(env, slot, v.entry.value, now))
  }

  function OnTick(env: Env, slot: nat, v: SlotView, now: int, buildOk: bool, publishOk: bool): SlotView
  {
    OnPrune(env, slot, OnDue(v, now, buildOk, publishOk), now)
  }

  function SlotStep(env: Env, slot: nat, v: SlotView, e: Event): SlotView
  {
    match e
    case Request(s, root, participation, at) => if s == slot then OnRequest(env, slot, v, root, participation, at) else v
    case VoteUpdate(s, root, pct, at) => if s == slot then OnVote(v, root, pct, at) else v
    case Tick(at, buildOk, publishOk) => OnTick(env, slot, v, at, buildOk(slot), publishOk(slot))
  }

  function Run(env: Env, slot: nat, v: SlotView, events: seq<Event>): SlotView
    decreases |events|
  {
    if events == [] then v else Run(env, slot, SlotStep(env, slot, v, events[0]), events[1..])
  }

  const FRESH := SlotView(None, {}, [])

  /** The clock never runs backwards. */
  ghost predicate InOrder(events: seq<Event>, clock: int)
    decreases |events|
  {
    events == [] || (clock <= events[0].at && InOrder(events[1..], events[0].at))
  }

  // ----- safety -----

  ghost predicate RealVote(env: Env, slot: nat, root: nat, votes: set<VoteSeen>)
  {
    exists v :: v in votes && v.root == root && v.participation >= env.frozen(slot).voteThreshold
  }

  /** What the gate mode promises: the reveal time has come and/or a threshold vote on the committing root was seen. */
  ghost predicate GenuinelyOpen(env: Env, slot: nat, root: nat, votes: set<VoteSeen>, now: int)
  {
    match env.frozen(slot).gateMode
    case Vote => RealVote(env, slot, root, votes)
    case VoteOrTime => RealVote(env, slot, root, votes) || now >= TimeDue(env, slot)
    case VoteAndTime => RealVote(env, slot, root, votes) && now >= TimeDue(env, slot)
    case Time => now >= TimeDue(env, slot)
  }

  /** A pending entry: it was armed by schedule, its gate flag means what it says, and it wakes up when there is work. */
  ghost predicate PendingOk(env: Env, slot: nat, v: SlotView, st: RevealState, clock: int)
  {
    && st.settings == env.frozen(slot) && !st.settings.suppressed
    && st.timeDue == TimeDue(env, slot) && st.expiry == Expiry(env, slot)
    && (st.attempts > 0 ==> st.attempts < MaxAttempts(st.settings))
    && (st.attempts > 0 ==> GenuinelyOpen(env, slot, st.root, v.votes, clock) && GateSatisfied(st, clock))
    && (st.voteGateMet && !RealVote(env, slot, st.root, v.votes) ==>
      st.settings.gateMode.VoteOrTime? && st.attempts > 0 && clock >= st.timeDue)
    && (st.nextAttempt >= st.expiry || st.attempts > 0 || GateSatisfied(st, st.nextAttempt))
  }

  ghost predicate SlotInv(env: Env, slot: nat, v: SlotView, clock: int)
  {
    && (v.entry.Some? && !v.entry.value.done ==> PendingOk(env, slot, v, v.entry.value, clock))
    && (forall a :: a in v.tries ==> GenuinelyOpen(env, slot, a.root, a.votes, a.at))
  }

  lemma RequestKeepsInv(env: Env, slot: nat, v: SlotView, clock: int, root: nat, participation: Option<real>, now: int)
    requires SlotInv(env, slot, v, clock) && clock <= now
    ensures SlotInv(env, slot, OnRequest(env, slot, v, root, participation, now), now)
  {
    var v' := OnRequest(env, slot, v, root, participation, now);
    if v.entry.None? && participation.Some? && VoteSeen(root, participation.value) in v'.votes {
      var st := v'.entry.value;
      assert st.voteGateMet ==> RealVote(env, slot, root, v'.votes);
    }
  }

  lemma VoteKeepsInv(env: Env, slot: nat, v: SlotView, clock: int, root: nat, pct: real, now: int)
    requires SlotInv(env, slot, v, clock) && clock <= now
    ensures SlotInv(env, slot, OnVote(v, root, pct, now), now)
  {
    var v' := OnVote(v, root, pct, now);
    assert VoteSeen(root, pct) in v'.votes;
    assert forall r :: RealVote(env, slot, r, v.votes) ==> RealVote(env, slot, r, v'.votes);
  }

  lemma TickKeepsInv(env: Env, slot: nat, v: SlotView, clock: int, now: int, buildOk: bool, publishOk: bool)
    requires SlotInv(env, slot, v, clock) && clock <= now
    ensures SlotInv(env, slot, OnTick(env, slot, v, now, buildOk, publishOk), now)
  {
  }

  lemma StepKeepsInv(env: Env, slot: nat, v: SlotView, clock: int, e: Event)
    requires SlotInv(env, slot, v, clock) && clock <= e.at
    ensures SlotInv(env, slot, SlotStep(env, slot, v, e), e.at)
  {
    match e
    case Request(s, root, participation, at) => if s == slot { RequestKeepsInv(env, slot, v, clock, root, participation, at); }
    case VoteUpdate(s, root, pct, at) => if s == slot { VoteKeepsInv(env, slot, v, clock, root, pct, at); }
    case Tick(at, buildOk, publishOk) => TickKeepsInv(env, slot, v, clock, at, buildOk(slot), publishOk(slot));
  }

  /** Every publish attempt of every run is made with the slot's gate genuinely open. */
  lemma {:induction false} AttemptsOnlyWhenOpen(env: Env, slot: nat, v: SlotView, events: seq<Event>, clock: int)
    requires SlotInv(env, slot, v, clock) && InOrder(events, clock)
    ensures forall a :: a in Run(env, slot, v, events).tries ==> GenuinelyOpen(env, slot, a.root, a.votes, a.at)
    decreases |events|
  {
    if events != [] {
      StepKeepsInv(env, slot, v, clock, events[0]);
      AttemptsOnlyWhenOpen(env, slot, SlotStep(env, slot, v, events[0]), events[1..], events[0].at);
    }
  }

  // ----- no opening of the gate is missed -----

  /** Before its first attempt a pending reveal is due from the moment when its gate is open. */
  ghost predicate Prompt(v: SlotView, clock: int)
  {
    v.entry.Some? && !v.entry.value.done && v.entry.value.attempts == 0 ==>
      forall t :: t >= clock && GateSatisfied(v.entry.value, t) ==> IsDue(v.entry.value, t)
  }

  lemma StepKeepsPrompt(env: Env, slot: nat, v: SlotView, clock: int, e: Event)
    requires SlotInv(env, slot, v, clock) && Prompt(v, clock) && clock <= e.at
    ensures Prompt(SlotStep(env, slot, v, e), e.at)
  {
    if e.Tick? && v.entry.Some? && IsDue(v.entry.value, e.at) {
      DueRoundProgresses(env, slot, v, clock, e.at, e.buildOk(slot), e.publishOk(slot));
    }
  }

  lemma {:induction false} RunKeepsPrompt(env: Env, slot: nat, v: SlotView, events: seq<Event>, clock: int)
    requires SlotInv(env, slot, v, clock) && Prompt(v, clock) && InOrder(events, clock)
    ensures Prompt(Run(env, slot, v, events), if events == [] then clock else events[|events| - 1].at)
    decreases |events|
  {
    if events != [] {
      StepKeepsInv(env, slot, v, clock, events[0]);
      StepKeepsPrompt(env, slot, v, clock, events[0]);
      RunKeepsPrompt(env, slot, SlotStep(env, slot, v, events[0]), events[1..], events[0].at);
    }
  }

  // ----- at most one publication, and no more attempts than the budget -----

  function Successes(tries: seq<Attempt>): nat
  {
    if tries == [] then 0
    else Successes(tries[..|tries| - 1]) + if tries[|tries| - 1].success then 1 else 0
  }

  lemma SuccessesOfOneMore(tries: seq<Attempt>, a: Attempt)
    ensures Successes(tries + [a]) == Successes(tries) + if a.success then 1 else 0
  {
    assert (tries + [a])[..|tries|] == tries;
  }

  /**
   Without a deadline bypass. An entry disappears only after the slot's deadline, when any further request is
   late, so the attempts counted in the entry are all the attempts there ever were.
   */
  ghost predicate OnceInv(env: Env, slot: nat, v: SlotView, clock: int)
  {
    && |v.tries| <= env.frozen(slot).maxAttempts
    && Successes(v.tries) <= 1
    && (v.entry.Some? && !v.entry.value.done ==> |v.tries| == v.entry.value.attempts && Successes(v.tries) == 0)
    && (v.entry.None? ==> v.tries == [] || clock > Deadline(env, slot))
  }

  lemma DueKeepsOnce(env: Env, slot: nat, v: SlotView, clock: int, now: int, buildOk: bool, publishOk: bool)
    requires ValidEnv(env) && !env.frozen(slot).bypassDeadline
    requires SlotInv(env, slot, v, clock) && OnceInv(env, slot, v, clock) && clock <= now
    ensures OnceInv(env, slot, OnDue(v, now, buildOk, publishOk), now)
  {
    if v.entry.Some? {
      if Attempts(v.entry.value, now) {
        BudgetOf(env, slot, v, clock);
        AttemptKeepsOnce(env, slot, v, clock, now, buildOk, publishOk);
      } else {
        IdleKeepsOnce(env, slot, v, clock, now, buildOk, publishOk);
      }
    }
  }

  lemma BudgetOf(env: Env, slot: nat, v: SlotView, clock: int)
    requires ValidEnv(env) && SlotInv(env, slot, v, clock) && v.entry.Some? && !v.entry.value.done
    ensures v.entry.value.attempts < env.frozen(slot).maxAttempts
  {
  }

  lemma IdleKeepsOnce(env: Env, slot: nat, v: SlotView, clock: int, now: int, buildOk: bool, publishOk: bool)
    requires OnceInv(env, slot, v, clock) && clock <= now && v.entry.Some? && !Attempts(v.entry.value, now)
    ensures OnceInv(env, slot, OnDue(v, now, buildOk, publishOk), now)
  {
  }

  lemma AttemptKeepsOnce(env: Env, slot: nat, v: SlotView, clock: int, now: int, buildOk: bool, publishOk: bool)
    requires OnceInv(env, slot, v, clock) && v.entry.Some? && Attempts(v.entry.value, now)
    requires v.entry.value.attempts < env.frozen(slot).maxAttempts
    ensures OnceInv(env, slot, OnDue(v, now, buildOk, publishOk), now)
  {
    var st := v.entry.value;
    var a := Attempt(st.root, now, Succeeds(st, buildOk, publishOk), v.votes);
    SuccessesOfOneMore(v.tries, a);
    AttemptCounts(st, now, buildOk, publishOk);
    assert OnDue(v, now, buildOk, publishOk).tries == v.tries + [a];
  }

  /** An attempt counts, and leaves the entry open only when it failed with budget left. */
  lemma AttemptCounts(st: RevealState, now: int, buildOk: bool, publishOk: bool)
    requires Attempts(st, now)
    ensures var st' := Processed(st, now, buildOk, publishOk);
      && st'.attempts == st.attempts + 1 && st'.settings == st.settings
      && (!st'.done ==> !Succeeds(st, buildOk, publishOk) && st'.attempts < MaxAttempts(st.settings))
  {
  }

  lemma PruneKeepsOnce(env: Env, slot: nat, v: SlotView, now: int)
    requires ValidEnv(env) && OnceInv(env, slot, v, now)
    ensures OnceInv(env, slot, OnPrune(env, slot, v, now), now)
  {
  }

  lemma TickKeepsOnce(env: Env, slot: nat, v: SlotView, clock: int, now: int, buildOk: bool, publishOk: bool)
    requires ValidEnv(env) && !env.frozen(slot).bypassDeadline
    requires SlotInv(env, slot, v, clock) && OnceInv(env, slot, v, clock) && clock <= now
    ensures OnceInv(env, slot, OnTick(env, slot, v, now, buildOk, publishOk), now)
  {
    DueKeepsOnce(env, slot, v, clock, now, buildOk, publishOk);
    PruneKeepsOnce(env, slot, OnDue(v, now, buildOk, publishOk), now);
  }

  lemma StepKeepsOnce(env: Env, slot: nat, v: SlotView, clock: int, e: Event)
    requires ValidEnv(env) && !env.frozen(slot).bypassDeadline
    requires SlotInv(env, slot, v, clock) && OnceInv(env, slot, v, clock) && clock <= e.at
    ensures OnceInv(env, slot, SlotStep(env, slot, v, e), e.at)
  {
    if e.Tick? {
      TickKeepsOnce(env, slot, v, clock, e.at, e.buildOk(slot), e.publishOk(slot));
    }
  }

  lemma {:induction false} RunKeepsOnce(env: Env, slot: nat, v: SlotView, events: seq<Event>, clock: int)
    requires ValidEnv(env) && !env.frozen(slot).bypassDeadline
    requires SlotInv(env, slot, v, clock) && OnceInv(env, slot, v, clock) && InOrder(events, clock)
    ensures |Run(env, slot, v, events).tries| <= env.frozen(slot).maxAttempts
    ensures Successes(Run(env, slot, v, events).tries) <= 1
    decreases |events|
  {
    if events != [] {
      StepKeepsInv(env, slot, v, clock, events[0]);
      StepKeepsOnce(env, slot, v, clock, events[0]);
      RunKeepsOnce(env, slot, SlotStep(env, slot, v, events[0]), events[1..], events[0].at);
    }
  }

  /** No run from an empty service, however requests, votes, retries and pruning interleave, publishes the slot twice. */
  ghost predicate NeverTwice(env: Env, slot: nat)
  {
    forall events, clock :: InOrder(events, clock) ==> Successes(Run(env, slot, FRESH, events).tries) <= 1
  }

  /**
   The dedupe holds for exactly the slots without a deadline bypass (or with the reveal suppressed): a bypassing
   slot can be published again once its marker has been pruned.
   */
  lemma NeverTwiceIffNoBypass(env: Env, slot: nat)
    requires ValidEnv(env)
    ensures NeverTwice(env, slot) <==> !env.frozen(slot).bypassDeadline || env.frozen(slot).suppressed
  {
    if !env.frozen(slot).bypassDeadline {
      forall events, clock | InOrder(events, clock)
        ensures Successes(Run(env, slot, FRESH, events).tries) <= 1
      {
        RunKeepsOnce(env, slot, FRESH, events, clock);
      }
    } else if env.frozen(slot).suppressed {
      forall events, clock | InOrder(events, clock)
        ensures Successes(Run(env, slot, FRESH, events).tries) <= 1
      {
        SuppressedNeverTries(env, slot, FRESH, events);
      }
    } else {
      PublishedTwice(env, slot);
    }
  }

  lemma {:induction false} SuppressedNeverTries(env: Env, slot: nat, v: SlotView, events: seq<Event>)
    requires env.frozen(slot).suppressed && v.tries == [] && (v.entry.Some? ==> v.entry.value.done)
    ensures Run(env, slot, v, events).tries == []
    decreases |events|
  {
    if events != [] {
      SuppressedNeverTries(env, slot, SlotStep(env, slot, v, events[0]), events[1..]);
    }
  }

  /** A request and a due round at one moment after the slot's expiry: published, and the marker pruned at once. */
  lemma PublishedAndForgotten(env: Env, slot: nat, v: SlotView, t: int)
    requires ValidEnv(env) && env.frozen(slot).bypassDeadline && !env.frozen(slot).suppressed && v.entry.None?
    requires t >= TimeDue(env, slot) && t > SlotStart(env, slot) + 2 * env.slotDuration
    ensures var v1 := OnRequest(env, slot, v, 0, Some(env.frozen(slot).voteThreshold), t);
      var v2 := OnTick(env, slot, v1, t, true, true);
      v2.entry.None? && Successes(v2.tries) == Successes(v.tries) + 1
  {
    var v1 := OnRequest(env, slot, v, 0, Some(env.frozen(slot).voteThreshold), t);
    var st := v1.entry.value;
    assert Attempts(st, t) && Succeeds(st, true, true);
    SuccessesOfOneMore(v.tries, Attempt(st.root, t, true, v1.votes));
  }

  lemma PublishedTwice(env: Env, slot: nat)
    requires ValidEnv(env) && env.frozen(slot).bypassDeadline && !env.frozen(slot).suppressed
    ensures !NeverTwice(env, slot)
  {
    var t := Later(TimeDue(env, slot), SlotStart(env, slot) + 2 * env.slotDuration + 1);
    var request := Request(slot, 0, Some(env.frozen(slot).voteThreshold), t);
    var tick := Tick(t, s => true, s => true);
    TwoPublications(env, slot, request, tick, t);
    RunOfFour(env, slot, request, tick, t);
  }

  lemma TwoPublications(env: Env, slot: nat, request: Event, tick: Event, t: int)
    requires ValidEnv(env) && env.frozen(slot).bypassDeadline && !env.frozen(slot).suppressed
    requires t >= TimeDue(env, slot) && t > SlotStart(env, slot) + 2 * env.slotDuration
    requires request == Request(slot, 0, Some(env.frozen(slot).voteThreshold), t)
    requires tick.Tick? && tick.at == t && tick.buildOk(slot) && tick.publishOk(slot)
    ensures var v2 := SlotStep(env, slot, SlotStep(env, slot, FRESH, request), tick);
      Successes(SlotStep(env, slot, SlotStep(env, slot, v2, request), tick).tries) == 2
  {
    PublishedAndForgotten(env, slot, FRESH, t);
    PublishedAndForgotten(env, slot, SlotStep(env, slot, SlotStep(env, slot, FRESH, request), tick), t);
  }

  lemma RunOfFour(env: Env, slot: nat, a: Event, b: Event, t: int)
    requires a.at == t && b.at == t
    ensures InOrder([a, b, a, b], t)
    ensures Run(env, slot, FRESH, [a, b, a, b])
         == SlotStep(env, slot, SlotStep(env, slot, SlotStep(env, slot, SlotStep(env, slot, FRESH, a), b), a), b)
  {
    var v1 := SlotStep(env, slot, FRESH, a);
    var v2 := SlotStep(env, slot, v1, b);
    var v3 := SlotStep(env, slot, v2, a);
    assert [a, b, a, b][1..] == [b, a, b] && [b, a, b][1..] == [a, b] && [a, b][1..] == [b] && [b][1..] == [];
    assert InOrder([b], t) && InOrder([a, b], t) && InOrder([b, a, b], t);
    assert Run(env, slot, v3, [b]) == Run(env, slot, SlotStep(env, slot, v3, b), []);
    assert Run(env, slot, v2, [a, b]) == Run(env, slot, v3, [b]);
    assert Run(env, slot, v1, [b, a, b]) == Run(env, slot, v2, [a, b]);
  }

  // ----- progress -----

  /** A due round finishes the reveal or spends an attempt; parking on the expiry never happens in a reachable state. */
  lemma DueRoundProgresses(env: Env, slot: nat, v: SlotView, clock: int, now: int, buildOk: bool, publishOk: bool)
    requires SlotInv(env, slot, v, clock) && clock <= now && v.entry.Some? && IsDue(v.entry.value, now)
    ensures var st' := Processed(v.entry.value, now, buildOk, publishOk);
      st'.done || st'.attempts == v.entry.value.attempts + 1
  {
  }

  /** Due rounds of the current entry until it is done. */
  function RoundsUntilDone(env: Env, slot: nat, v: SlotView, events: seq<Event>): nat
    decreases |events|
  {
    if events == [] || v.entry.None? || v.entry.value.done then 0
    else
      (if events[0].Tick? && IsDue(v.entry.value, events[0].at) then 1 else 0)
      + RoundsUntilDone(env, slot, SlotStep(env, slot, v, events[0]), events[1..])
  }

  function AttemptsLeft(env: Env, slot: nat, v: SlotView): int
  {
    if v.entry.None? || v.entry.value.done then 0 else env.frozen(slot).maxAttempts - v.entry.value.attempts
  }

  /** Every scheduled reveal is done after at most MaxAttempts due rounds. */
  lemma {:induction false} DoneWithinBudget(env: Env, slot: nat, v: SlotView, events: seq<Event>, clock: int)
    requires ValidEnv(env) && SlotInv(env, slot, v, clock) && InOrder(events, clock)
    ensures RoundsUntilDone(env, slot, v, events) <= AttemptsLeft(env, slot, v)
    decreases |events|
  {
    if events != [] && v.entry.Some? && !v.entry.value.done {
      StepKeepsInv(env, slot, v, clock, events[0]);
      DoneWithinBudget(env, slot, SlotStep(env, slot, v, events[0]), events[1..], events[0].at);
    }
  }
}
