/**
 The main loop's handlers of pkg/payload_bidder/reveal_service.go over the `pending`
 map. Each handler is one event for every slot at once; Reveal.dfy says what that
 event does to a single slot.
 */
module RevealService {
  import opened Common
  import opened Reveal

  const ONE_HOUR: nat := 3600000

  class Service {
    const env: Env
    var pending: map<nat, RevealState>
    ghost var votes: nat -> set<VoteSeen> // what has been reported for each slot
    ghost var tries: nat -> seq<Attempt> // the publish attempts made for each slot

    ghost function View(slot: nat): SlotView
      reads this
    {
      SlotView(if slot in pending then Some(pending[slot]) else None, votes(slot), tries(slot))
    }

    constructor (env: Env)
      ensures this.env == env
      ensures forall slot :: View(slot) == FRESH
    {
      this.env := env;
      pending := map[];
      votes := s => {};
      tries := s => [];
    }

    /** A nil request, payload or block info is dropped. */
    method Schedule(request: Option<(nat, nat)>, participation: Option<real>, now: int)
      modifies this
      ensures request.None? ==> forall slot :: View(slot) == old(View(slot))
      ensures request.Some? ==> forall slot ::
        View(slot) == SlotStep(env, slot, old(View(slot)), Request(request.value.0, request.value.1, participation, now))
    {
      if request.None? {
        return;
      }
      var slot, root := request.value.0, request.value.1;
      if slot in pending {
        return;
      }
      var settings := env.frozen(slot);
      if settings.suppressed {
        pending := pending[slot := FinishedMarker(env, slot, root)];
        return;
      }
      var timeDue := SlotStart(env, slot) + settings.revealTime;
      var deadline := SlotStart(env, slot) + env.slotDuration;
      if !settings.bypassDeadline && now > deadline {
        pending := pending[slot := FinishedMarker(env, slot, root)];
        return;
      }
      var expiry := deadline;
      if settings.bypassDeadline {
        expiry := deadline + env.slotDuration;
      }
      var st := RevealState(root, settings, 0, false, false, timeDue, expiry, 0, false);
      if VoteGated(st) {
        if participation.Some? {
          ghost var seen := votes;
          votes := (s: nat) => if s == slot then seen(s) + {VoteSeen(root, participation.value)} else seen(s);
          if participation.value >= settings.voteThreshold {
            st := st.(voteGateMet := true);
          }
        }
      }
      match settings.gateMode {
        case Vote =>
          st := st.(nextAttempt := expiry);
          if st.voteGateMet {
            st := st.(nextAttempt := now);
          }
        case VoteOrTime =>
          st := st.(nextAttempt := timeDue);
          if st.voteGateMet {
            st := st.(nextAttempt := now);
          }
        case VoteAndTime =>
          st := st.(nextAttempt := expiry);
          if st.voteGateMet {
            st := st.(nextAttempt := timeDue);
          }
        case Time =>
          st := st.(nextAttempt := timeDue);
      }
      if st.nextAttempt < now {
        st := st.(nextAttempt := now);
      }
      pending := pending[slot := st];
    }

    method HandleVoteUpdate(slot: nat, root: nat, pct: real, now: int)
      modifies this
      ensures forall s :: View(s) == SlotStep(env, s, old(View(s)), VoteUpdate(slot, root, pct, now))
    {
      ghost var seen := votes;
      votes := (s: nat) => if s == slot then seen(s) + {VoteSeen(root, pct)} else seen(s);
      if slot !in pending {
        return;
      }
      var st := pending[slot];
      if st.done || st.voteGateMet || !VoteGated(st) {
        return;
      }
      if st.attempts > 0 {
        pending := pending[slot := st.(voteGateMet := true)];
        return;
      }
      if root != st.root || pct < st.settings.voteThreshold {
        return;
      }
      var next := now;
      if st.settings.gateMode == VoteAndTime && st.timeDue > next {
        next := st.timeDue;
      }
      pending := pending[slot := st.(voteGateMet := true, nextAttempt := next)];
    }

    /** One iteration of the publishing loop. */
    method ProcessOne(slot: nat, now: int, buildOk: bool, publishOk: bool)
      requires slot in pending
      modifies this
      ensures pending.Keys == old(pending.Keys)
      ensures View(slot) == OnDue(old(View(slot)), now, buildOk, publishOk)
      ensures forall s :: s != slot ==> View(s) == old(View(s))
    {
      var st := pending[slot];
      if st.done || st.nextAttempt > now {
        return;
      }
      if !GateSatisfied(st, now) {
        if now < st.expiry {
          pending := pending[slot := st.(nextAttempt := st.expiry)];
          return;
        }
        pending := pending[slot := st.(done := true)];
        return;
      }
      ghost var before := tries;
      ghost var attempt := Attempt(st.root, now, Succeeds(st, buildOk, publishOk), votes(slot));
      tries := (s: nat) => if s == slot then before(s) + [attempt] else before(s);
      st := st.(attempts := st.attempts + 1);
      if !st.built {
        if !buildOk {
          HandlePublishFailure(slot, st, now);
          return;
        }
        st := st.(built := true);
      }
      if !publishOk {
        HandlePublishFailure(slot, st, now);
        return;
      }
      pending := pending[slot := st.(done := true)];
    }

    method HandlePublishFailure(slot: nat, st: RevealState, now: int)
      modifies this`pending
      ensures pending == old(pending)[slot := AfterFailure(st, now)]
    {
      if st.attempts >= MaxAttempts(st.settings) {
        pending := pending[slot := st.(done := true)];
        return;
      }
      pending := pending[slot := st.(nextAttempt := now + st.settings.retryInterval)];
    }

    /** `buildOk` and `publishOk` say, slot by slot, how envelope construction and the network call turn out. */
    method ProcessDue(now: int, buildOk: nat -> bool, publishOk: nat -> bool)
      modifies this
      ensures forall s :: View(s) == SlotStep(env, s, old(View(s)), Tick(now, buildOk, publishOk))
    {
      PublishDue(now, buildOk, publishOk);
      PruneDone(now);
    }

    method PublishDue(now: int, buildOk: nat -> bool, publishOk: nat -> bool)
      modifies this
      ensures forall s :: View(s) == OnDue(old(View(s)), now, buildOk(s), publishOk(s))
    {
      ghost var p, v, t := pending, votes, tries;
      ghost var before := (s: nat) => SlotView(if s in p then Some(p[s]) else None, v(s), t(s));
      var rest := pending.Keys;
      while rest != {}
        invariant rest <= pending.Keys == p.Keys && AllDue(before, rest, now, buildOk, publishOk)
        decreases |rest|
      {
        var slot :| slot in rest;
        ProcessNext(slot, now, buildOk, publishOk, before, rest);
        rest := rest - {slot};
      }
      forall s: nat
        ensures View(s) == OnDue(before(s), now, buildOk(s), publishOk(s))
      {
        assert DueAt(before, rest, now, buildOk, publishOk, s);
      }
    }

    /** The slot is as before while it is in rest, and without an entry or processed otherwise. */
    ghost predicate DueAt(before: nat -> SlotView, rest: set<nat>, now: int, buildOk: nat -> bool, publishOk: nat -> bool, s: nat)
      reads this
    {
      View(s) == if s in rest then before(s) else OnDue(before(s), now, buildOk(s), publishOk(s))
    }

    ghost predicate AllDue(before: nat -> SlotView, rest: set<nat>, now: int, buildOk: nat -> bool, publishOk: nat -> bool)
      reads this
    {
      forall s: nat {:trigger DueAt(before, rest, now, buildOk, publishOk, s)} :: DueAt(before, rest, now, buildOk, publishOk, s)
    }

    method ProcessNext(slot: nat, now: int, buildOk: nat -> bool, publishOk: nat -> bool, ghost before: nat -> SlotView,
                       ghost rest: set<nat>)
      requires slot in pending && slot in rest && AllDue(before, rest, now, buildOk, publishOk)
      modifies this
      ensures pending.Keys == old(pending.Keys) && AllDue(before, rest - {slot}, now, buildOk, publishOk)
    {
      ProcessOne(slot, now, buildOk(slot), publishOk(slot));
      forall s: nat
        ensures DueAt(before, rest - {slot}, now, buildOk, publishOk, s)
      {
        assert old(DueAt(before, rest, now, buildOk, publishOk, s));
      }
    }

    method PruneDone(now: int)
      modifies this`pending
      ensures forall s :: View(s) == OnPrune(env, s, old(View(s)), now)
    {
      var rest := pending.Keys;
      while rest != {}
        invariant rest <= pending.Keys
        invariant forall s :: s in rest ==> View(s) == old(View(s))
        invariant forall s :: s !in rest ==> View(s) == OnPrune(env, s, old(View(s)), now)
        decreases |rest|
      {
        var slot :| slot in rest;
        rest := rest - {slot};
        if pending[slot].done {
          if now > SlotStart(env, slot) + 2 * env.slotDuration {
            pending := pending - {slot};
          }
        }
      }
    }

    /** The timer's next wait: an hour when idle, and never past the earliest pending attempt. */
    method Rearm(now: int) returns (wait: nat)
      ensures wait <= ONE_HOUR
      ensures forall s :: s in pending && !pending[s].done ==> wait <= Later(0, pending[s].nextAttempt - now)
      ensures wait == ONE_HOUR ||
        exists s :: s in pending && !pending[s].done && wait == Later(0, pending[s].nextAttempt - now)
    {
      var next: int := ONE_HOUR;
      var rest := pending.Keys;
      while rest != {}
        invariant rest <= pending.Keys && next <= ONE_HOUR
        invariant forall s :: s in pending && s !in rest && !pending[s].done ==> next <= pending[s].nextAttempt - now
        invariant next == ONE_HOUR || exists s :: s in pending && !pending[s].done && next == pending[s].nextAttempt - now
        decreases |rest|
      {
        var slot :| slot in rest;
        rest := rest - {slot};
        if !pending[slot].done {
          if pending[slot].nextAttempt - now < next {
            next := pending[slot].nextAttempt - now;
          }
        }
      }
      if next < 0 {
        next := 0;
      }
      return next;
    }
  }
}
