/**
 Coalesced update events of one slot (pkg/slot_results/tracker.go): upsert, fireUpdate, flushTrailing and the pruning
 of the coalescing maps, as steps on what concerns the slot. A trailing flush takes its result under the lock and
 delivers it after unlocking, so the two are separate steps, and anything may happen in between.
 */
module Coalescing {
  import opened Common

  const FIRE_INTERVAL: int := 1000 // milliseconds
  const KEEP_SLOTS: nat := 64

  /** The revision numbers the upserts of the tracker and stands for UpdatedAt. */
  datatype Record = Record(slot: nat, revision: nat, body: nat)

  /** A result that a flush took at some time and has not delivered yet. */
  datatype Flight = Flight(record: Record, takenAt: int)

  /**
   One slot: the stored record, the suppressed one, when the outstanding timer runs, the flushes under way and the
   deliveries in order. The last three fields are history: a suppressed result was thrown away by the prune; the newest
   delivery left an older result in flight; a flush delivered FIRE_INTERVAL or more after it took its result, or the
   window that it opened was forgotten meanwhile.
   */
  datatype SlotView = SlotView(
    stored: Option<Record>,
    lastFired: Option<int>,
    pending: Option<Record>,
    timer: Option<int>,
    flights: map<nat, Flight>,
    delivered: seq<Record>,
    dropped: bool,
    behind: bool,
    disturbed: bool)

  const UNTOUCHED := SlotView(None, None, None, None, map[], [], false, false, false)

  // ----- the steps -----

  predicate InWindow(v: SlotView, now: int)
  {
    v.lastFired.Some? && now - v.lastFired.value < FIRE_INTERVAL
  }

  function Suppressed(v: SlotView, record: Record): SlotView
    requires v.lastFired.Some?
  {
    v.(stored := Some(record), pending := Some(record), dropped := false,
       timer := if v.timer.Some? then v.timer else Some(v.lastFired.value + FIRE_INTERVAL))
  }

  function Fired(v: SlotView, record: Record, now: int): SlotView
  {
    v.(stored := Some(record), pending := None, dropped := false, lastFired := Some(now),
       delivered := v.delivered + [record], behind := v.flights != map[])
  }

  function Upserted(v: SlotView, record: Record, now: int): SlotView
  {
    if InWindow(v, now) then Suppressed(v, record) else Fired(v, record, now)
  }

  /** pruneCoalescing for a slot that fell behind. */
  function Forgotten(v: SlotView): SlotView
  {
    v.(lastFired := None, pending := None, dropped := v.dropped || v.pending.Some?,
       disturbed := v.disturbed || v.flights != map[])
  }

  /** flushTrailing up to the unlock, with id for the goroutine. */
  function Taken(v: SlotView, id: nat, now: int, stopped: bool): SlotView
  {
    if v.pending.None? || stopped then v.(timer := None)
    else v.(timer := None, pending := None, lastFired := Some(now), flights := v.flights[id := Flight(v.pending.value, now)])
  }

  predicate Newest(delivered: seq<Record>, revision: nat)
  {
    forall i :: 0 <= i < |delivered| ==> delivered[i].revision < revision
  }

  /** flushTrailing after the unlock. */
  function Landed(v: SlotView, id: nat, now: int): SlotView
    requires id in v.flights
  {
    var flight, rest := v.flights[id], v.flights - {id};
    v.(flights := rest,
       delivered := v.delivered + [flight.record],
       disturbed := v.disturbed || now >= flight.takenAt + FIRE_INTERVAL,
       behind := if Newest(v.delivered, flight.record.revision) then rest != map[] else v.behind)
  }

  /** pruneForEpoch drops the record first, and then, under the tracker's lock, the coalescing time. */
  function StorePruned(v: SlotView): SlotView
  {
    v.(stored := None)
  }

  function WindowPruned(v: SlotView): SlotView
  {
    v.(lastFired := None, disturbed := v.disturbed || v.flights != map[])
  }

  // ----- the invariant -----

  ghost predicate NewestOfAll(delivered: seq<Record>, flights: map<nat, Flight>, revision: nat)
  {
    Newest(delivered, revision) && forall id :: id in flights ==> flights[id].record.revision < revision
  }

  /** The record has been delivered, and everything else for the slot is older. */
  ghost predicate IsDelivered(delivered: seq<Record>, flights: map<nat, Flight>, r: Record)
  {
    && r in delivered
    && (forall i :: 0 <= i < |delivered| ==> delivered[i] == r || delivered[i].revision < r.revision)
    && forall id :: id in flights ==> flights[id].record.revision < r.revision
  }

  ghost predicate IsFlight(flights: map<nat, Flight>, r: Record, id: nat)
  {
    && id in flights && flights[id].record == r
    && forall other :: other in flights && other != id ==> flights[other].record.revision < r.revision
  }

  /** A flush has the record, and everything else for the slot is older. */
  ghost predicate IsInFlight(delivered: seq<Record>, flights: map<nat, Flight>, r: Record)
  {
    Newest(delivered, r.revision) && exists id :: IsFlight(flights, r, id)
  }

  /** The stored record is suppressed, with a timer, or in flight, or delivered, or was dropped. */
  ghost predicate RecordsOk(v: SlotView, revisions: nat, stopped: bool)
  {
    && NewestOfAll(v.delivered, v.flights, revisions + 1)
    && (v.pending.Some? ==> v.pending.value.revision <= revisions && NewestOfAll(v.delivered, v.flights, v.pending.value.revision))
    && (v.pending.Some? && !stopped ==> v.timer.Some?)
    && (v.stored.Some? ==> v.stored.value.revision <= revisions)
    && (v.stored.Some? && v.pending.Some? ==> v.pending == v.stored)
    && (v.stored.Some? && v.pending.None? ==>
          || IsDelivered(v.delivered, v.flights, v.stored.value) || IsInFlight(v.delivered, v.flights, v.stored.value)
          || (v.dropped && NewestOfAll(v.delivered, v.flights, v.stored.value.revision)))
  }

  ghost predicate IsLast(v: SlotView, r: Record)
  {
    v.delivered != [] && v.delivered[|v.delivered| - 1] == r
  }

  /** Once the stored record is delivered: nothing comes after it, or something did or will. */
  ghost predicate OrderOk(v: SlotView)
  {
    v.stored.Some? && IsDelivered(v.delivered, v.flights, v.stored.value) ==>
      (v.behind <==> !IsLast(v, v.stored.value) || v.flights != map[])
  }

  /** Every flush of the slot has delivered, or can still deliver, within the window that it opened. */
  ghost predicate Punctual(v: SlotView, clock: int)
  {
    !v.disturbed && forall id :: id in v.flights ==> clock < v.flights[id].takenAt + FIRE_INTERVAL
  }

  /** While such a flush is in flight, its window is the open one and no timer runs before it closes. */
  ghost predicate WindowOk(v: SlotView)
  {
    && !v.behind
    && (forall id, other :: id in v.flights && other in v.flights ==> id == other)
    && forall id :: id in v.flights ==>
      v.lastFired == Some(v.flights[id].takenAt) && (v.timer.Some? ==> v.timer.value >= v.flights[id].takenAt + FIRE_INTERVAL)
  }

  /** A timer runs within FIRE_INTERVAL from now, and no later than the open window closes. */
  ghost predicate TimerOk(v: SlotView, clock: int)
  {
    v.timer.Some? ==>
      && v.timer.value <= clock + FIRE_INTERVAL
      && (v.lastFired.Some? ==> v.timer.value <= v.lastFired.value + FIRE_INTERVAL)
  }

  ghost predicate Inv(v: SlotView, clock: int, revisions: nat, stopped: bool)
  {
    && RecordsOk(v, revisions, stopped) && OrderOk(v)
    && (v.lastFired.Some? ==> v.lastFired.value <= clock) && TimerOk(v, clock)
    && (Punctual(v, clock) ==> WindowOk(v))
  }

  // ----- every step keeps it -----

  lemma UntouchedInv(clock: int, revisions: nat, stopped: bool)
    ensures Inv(UNTOUCHED, clock, revisions, stopped)
  {
  }

  lemma TimeKeepsInv(v: SlotView, clock: int, now: int, revisions: nat, revisions': nat, stopped: bool)
    requires Inv(v, clock, revisions, stopped) && clock <= now && revisions <= revisions'
    ensures Inv(v, now, revisions', stopped)
  {
  }

  lemma StopKeepsInv(v: SlotView, clock: int, revisions: nat, stopped: bool)
    requires Inv(v, clock, revisions, stopped)
    ensures Inv(v, clock, revisions, true)
  {
  }

  lemma SuppressKeepsInv(v: SlotView, record: Record, clock: int, now: int, revisions: nat, stopped: bool)
    requires Inv(v, clock, revisions, stopped) && clock <= now && record.revision == revisions + 1 && InWindow(v, now)
    ensures Inv(Suppressed(v, record), now, revisions + 1, stopped)
  {
  }

  lemma FireKeepsInv(v: SlotView, record: Record, clock: int, now: int, revisions: nat, stopped: bool)
    requires Inv(v, clock, revisions, stopped) && clock <= now && record.revision == revisions + 1 && !InWindow(v, now)
    ensures Inv(Fired(v, record, now), now, revisions + 1, stopped)
  {
    var v' := Fired(v, record, now);
    assert v'.delivered[|v.delivered|] == record;
  }

  lemma UpsertKeepsInv(v: SlotView, record: Record, clock: int, now: int, revisions: nat, stopped: bool)
    requires Inv(v, clock, revisions, stopped) && clock <= now && record.revision == revisions + 1
    ensures Inv(Upserted(v, record, now), now, revisions + 1, stopped)
  {
    if InWindow(v, now) {
      SuppressKeepsInv(v, record, clock, now, revisions, stopped);
    } else {
      FireKeepsInv(v, record, clock, now, revisions, stopped);
    }
  }

  /** An upsert of a slot, seen from any slot. */
  lemma UpsertStepInv(v: SlotView, same: bool, record: Record, clock: int, now: int, revisions: nat, stopped: bool)
    requires Inv(v, clock, revisions, stopped) && clock <= now && record.revision == revisions + 1
    ensures Inv(if same then Upserted(v, record, now) else v, now, revisions + 1, stopped)
  {
    UpsertKeepsInv(v, record, clock, now, revisions, stopped);
    TimeKeepsInv(v, clock, now, revisions, revisions + 1, stopped);
  }

  lemma ForgetKeepsInv(v: SlotView, clock: int, revisions: nat, stopped: bool)
    requires Inv(v, clock, revisions, stopped)
    ensures Inv(Forgotten(v), clock, revisions, stopped)
  {
  }

  lemma StorePruneKeepsInv(v: SlotView, clock: int, revisions: nat, stopped: bool)
    requires Inv(v, clock, revisions, stopped)
    ensures Inv(StorePruned(v), clock, revisions, stopped)
  {
  }

  lemma WindowPruneKeepsInv(v: SlotView, clock: int, revisions: nat, stopped: bool)
    requires Inv(v, clock, revisions, stopped)
    ensures Inv(WindowPruned(v), clock, revisions, stopped)
  {
  }

  lemma TakeKeepsInv(v: SlotView, id: nat, clock: int, now: int, revisions: nat, stopped: bool)
    requires Inv(v, clock, revisions, stopped) && clock <= now && id !in v.flights && v.timer.Some? && now >= v.timer.value
    ensures Inv(Taken(v, id, now, stopped), now, revisions, stopped)
  {
    var v' := Taken(v, id, now, stopped);
    if v.pending.Some? && !stopped {
      assert IsFlight(v'.flights, v.pending.value, id);
      assert forall other :: other in v.flights ==> other in v'.flights && v'.flights[other] == v.flights[other];
      if Punctual(v, now) {
        NoFlightWhenDue(v, clock, now, revisions, stopped);
      }
    }
  }

  /** A timer does not run while a punctual flush of the slot is in flight. */
  lemma NoFlightWhenDue(v: SlotView, clock: int, now: int, revisions: nat, stopped: bool)
    requires Inv(v, clock, revisions, stopped) && clock <= now && v.timer.Some? && now >= v.timer.value && Punctual(v, now)
    ensures v.flights == map[]
  {
    assert Punctual(v, clock);
    assert forall id :: id !in v.flights;
  }

  lemma LandKeepsInv(v: SlotView, id: nat, clock: int, now: int, revisions: nat, stopped: bool)
    requires Inv(v, clock, revisions, stopped) && clock <= now && id in v.flights
    ensures Inv(Landed(v, id, now), now, revisions, stopped)
  {
    LandKeepsRecords(v, id, now, revisions, stopped);
    LandKeepsOrder(v, id, now, revisions, stopped);
    LandKeepsWindow(v, id, clock, now, revisions, stopped);
  }

  lemma LandKeepsRecords(v: SlotView, id: nat, now: int, revisions: nat, stopped: bool)
    requires RecordsOk(v, revisions, stopped) && id in v.flights
    ensures RecordsOk(Landed(v, id, now), revisions, stopped)
  {
    var v', r := Landed(v, id, now), v.flights[id].record;
    assert v'.delivered[|v.delivered|] == r;
    if v.stored.Some? && v.pending.None? {
      var s := v.stored.value;
      if IsInFlight(v.delivered, v.flights, s) {
        var own :| IsFlight(v.flights, s, own);
        if own == id {
          assert IsDelivered(v'.delivered, v'.flights, s);
        } else {
          assert IsFlight(v'.flights, s, own);
        }
      } else if IsDelivered(v.delivered, v.flights, s) {
        var i :| 0 <= i < |v.delivered| && v.delivered[i] == s;
        assert v'.delivered[i] == s;
      }
    }
  }

  lemma LandKeepsOrder(v: SlotView, id: nat, now: int, revisions: nat, stopped: bool)
    requires RecordsOk(v, revisions, stopped) && OrderOk(v) && id in v.flights
    ensures OrderOk(Landed(v, id, now))
  {
    var v', r := Landed(v, id, now), v.flights[id].record;
    assert v'.delivered[|v.delivered|] == r;
    if v.stored.Some? && IsDelivered(v'.delivered, v'.flights, v.stored.value) {
      var s := v.stored.value;
      if r != s {
        var i :| 0 <= i < |v'.delivered| && v'.delivered[i] == s;
        assert v.delivered[i] == s;
        assert IsDelivered(v.delivered, v.flights, s) by {
          assert forall k :: 0 <= k < |v.delivered| ==> v.delivered[k] == v'.delivered[k];
          assert forall other :: other in v.flights && other != id ==> other in v'.flights;
        }
        assert !Newest(v.delivered, r.revision);
      } else {
        OnlyOneFlight(v, id, revisions, stopped);
      }
    }
  }

  /** The stored record is not delivered twice. */
  lemma OnlyOneFlight(v: SlotView, id: nat, revisions: nat, stopped: bool)
    requires RecordsOk(v, revisions, stopped) && id in v.flights && v.stored == Some(v.flights[id].record)
    ensures IsFlight(v.flights, v.stored.value, id) && Newest(v.delivered, v.stored.value.revision)
  {
    assert v.pending.None?;
    assert IsInFlight(v.delivered, v.flights, v.stored.value);
    var own :| IsFlight(v.flights, v.stored.value, own);
    assert own == id;
  }

  lemma LandKeepsWindow(v: SlotView, id: nat, clock: int, now: int, revisions: nat, stopped: bool)
    requires Inv(v, clock, revisions, stopped) && clock <= now && id in v.flights
    ensures Punctual(Landed(v, id, now), now) ==> WindowOk(Landed(v, id, now))
  {
    var v' := Landed(v, id, now);
    if Punctual(v', now) {
      assert Punctual(v, clock) by {
        forall other | other in v.flights
          ensures clock < v.flights[other].takenAt + FIRE_INTERVAL
        {
          assert other != id ==> other in v'.flights && v'.flights[other] == v.flights[other];
        }
      }
      assert v'.flights == map[];
    }
  }

  // ----- what the invariant means for the subscribers -----

  /** Nothing runs for the slot. */
  ghost predicate Quiet(v: SlotView)
  {
    v.timer.None? && v.flights == map[]
  }

  /** The last second saw a delivery for the slot that the prune has not forgotten. */
  ghost predicate SentWithinASecond(v: SlotView, now: int)
  {
    exists fired :: v.lastFired == Some(fired) && fired > now - 1000
  }

  ghost predicate IsKept(v: SlotView, record: Record, v': SlotView)
  {
    && v'.stored == Some(record) && v'.pending == Some(record) && v'.timer.Some? && !v'.dropped
    && v.lastFired.Some? && v'.timer.value <= v.lastFired.value + 1000 && (v.timer.Some? ==> v'.timer == v.timer)
    && v'.lastFired == v.lastFired && v'.delivered == v.delivered && v'.flights == v.flights && v'.disturbed == v.disturbed
  }

  ghost predicate IsSent(v: SlotView, record: Record, now: int, v': SlotView)
  {
    && v'.stored == Some(record) && v'.pending == None && v'.timer == v.timer && !v'.dropped
    && v'.lastFired == Some(now) && v'.delivered == v.delivered + [record]
    && v'.flights == v.flights && v'.disturbed == v.disturbed
  }

  /**
   An update is delivered at once unless the slot had a delivery within the last second. Then it alone is kept, and a
   timer takes it before a second is over.
   */
  lemma UpdateReaches(v: SlotView, record: Record, clock: int, now: int, revisions: nat, stopped: bool)
    requires Inv(v, clock, revisions, stopped) && clock <= now
    ensures SentWithinASecond(v, now) ==> IsKept(v, record, Upserted(v, record, now))
    ensures !SentWithinASecond(v, now) ==> IsSent(v, record, now, Upserted(v, record, now))
  {
    assert v.lastFired.Some? && now - v.lastFired.value < 1000 ==> SentWithinASecond(v, now);
  }

  /** A timer that runs while its result is kept hands it to a flush, and the flush delivers it after everything else. */
  lemma FlushReaches(v: SlotView, id: nat, taken: int, now: int)
    requires v.pending.Some? && id !in v.flights
    ensures var v', v'' := Taken(v, id, taken, false), Landed(Taken(v, id, taken, false), id, now);
      && v'.pending == None && v'.timer == None && v'.lastFired == Some(taken) && v'.delivered == v.delivered
      && v''.delivered == v.delivered + [v.pending.value] && v''.flights == v.flights && v''.lastFired == Some(taken)
      && v''.dropped == v.dropped && v''.disturbed == (v.disturbed || now >= taken + 1000)
  {
    assert v.flights[id := Flight(v.pending.value, taken)] - {id} == v.flights;
  }

  /** No final state is stranded: it is delivered, in flight, or suppressed with a timer that runs within a second. */
  lemma NotStranded(v: SlotView, clock: int, revisions: nat)
    requires Inv(v, clock, revisions, false) && v.stored.Some? && !v.dropped
    ensures || v.stored.value in v.delivered
            || (exists id :: id in v.flights && v.flights[id].record == v.stored.value)
            || (v.pending == v.stored && v.timer.Some? && v.timer.value <= clock + FIRE_INTERVAL)
  {
    if v.pending.None? && IsInFlight(v.delivered, v.flights, v.stored.value) {
      var id :| IsFlight(v.flights, v.stored.value, id);
    }
  }

  /**
   When nothing runs, the final state was delivered. It came last if and only if its delivery left no older result in
   flight, and that is so whenever every flush delivered within FIRE_INTERVAL, its window not being forgotten.
   */
  lemma FinalStateLast(v: SlotView, clock: int, revisions: nat)
    requires Inv(v, clock, revisions, false) && v.stored.Some? && !v.dropped && Quiet(v)
    ensures v.stored.value in v.delivered
    ensures IsLast(v, v.stored.value) <==> !v.behind
    ensures !v.disturbed ==> IsLast(v, v.stored.value)
  {
    assert v.pending.None?;
    assert !IsInFlight(v.delivered, v.flights, v.stored.value);
  }
}
