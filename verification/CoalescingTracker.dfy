/**
 The tracker (pkg/slot_results/tracker.go): its maps, the AfterFunc timers, and the flushes under way. A ghost field holds
 the view of every slot, and Valid says that the maps are what the views say and that every view keeps Coalescing.Inv.
 */
module CoalescingTracker {
  import opened Common
  import opened Coalescing

  type Views = nat -> SlotView
  type Timers = multiset<(nat, int)>

  // ----- the steps, on the views of all slots -----

  function With(views: Views, slot: nat, v: SlotView): Views
  {
    (s: nat) => if s == slot then v else views(s)
  }

  function WithForgotten(views: Views, gone: set<nat>): Views
  {
    (s: nat) => if s in gone then Forgotten(views(s)) else views(s)
  }

  function WithStorePruned(views: Views, cutoff: nat): Views
  {
    (s: nat) => if s < cutoff then StorePruned(views(s)) else views(s)
  }

  function WithWindowPruned(views: Views, cutoff: nat): Views
  {
    (s: nat) => if s < cutoff && views(s).lastFired.Some? then WindowPruned(views(s)) else views(s)
  }

  /** The slots that an update for slot forgets: with more than 64 fired, those more than 64 behind. */
  function Stale(lastFired: map<nat, int>, slot: nat): set<nat>
  {
    if |lastFired| <= KEEP_SLOTS then {} else set s | s in lastFired && s + KEEP_SLOTS < slot
  }

  /** An upsert: the slot's own step, and the prune when the update fires. */
  function AfterUpsert(views: Views, lastFired: map<nat, int>, record: Record, now: int): Views
  {
    var slot := record.slot;
    if InWindow(views(slot), now) then With(views, slot, Suppressed(views(slot), record))
    else WithForgotten(With(views, slot, Fired(views(slot), record, now)), Stale(lastFired[slot := now], slot))
  }

  /** The slot that is updated never falls behind itself. */
  lemma OwnStep(views: Views, lastFired: map<nat, int>, record: Record, now: int)
    ensures AfterUpsert(views, lastFired, record, now)(record.slot) == Upserted(views(record.slot), record, now)
  {
  }

  predicate FallsBehind(lastFired: map<nat, int>, slot: nat, s: nat)
  {
    |lastFired.Keys + {slot}| > 64 && s in lastFired && s + 64 < slot
  }

  predicate IsForgotten(v: SlotView, v': SlotView)
  {
    && v'.lastFired == None && v'.pending == None && v'.timer == v.timer
    && v'.stored == v.stored && v'.delivered == v.delivered && v'.flights == v.flights
    && v'.dropped == (v.dropped || v.pending.Some?) && v'.disturbed == (v.disturbed || v.flights != map[])
  }

  /** A delivery forgets the other slots that fired and lie more than 64 behind, once more than 64 fired; no other changes. */
  lemma OtherStep(views: Views, lastFired: map<nat, int>, record: Record, now: int, s: nat)
    requires s != record.slot
    ensures var v, v' := views(s), AfterUpsert(views, lastFired, record, now)(s);
      if !InWindow(views(record.slot), now) && FallsBehind(lastFired, record.slot, s) then IsForgotten(v, v') else v' == v
  {
    var gone := Stale(lastFired[record.slot := now], record.slot);
    assert s in gone <==> FallsBehind(lastFired, record.slot, s) by {
      assert lastFired[record.slot := now].Keys == lastFired.Keys + {record.slot};
      assert |lastFired[record.slot := now]| == |lastFired[record.slot := now].Keys|;
    }
    if !InWindow(views(record.slot), now) {
      assert AfterUpsert(views, lastFired, record, now)(s) == if s in gone then Forgotten(views(s)) else views(s);
    }
  }

  // ----- the fields are what the views say -----

  function Lookup<T>(m: map<nat, T>, slot: nat): Option<T>
  {
    if slot in m then Some(m[slot]) else None
  }

  ghost function FlightsOf(inFlight: map<nat, Flight>, slot: nat): map<nat, Flight>
  {
    map id | id in inFlight && inFlight[id].record.slot == slot :: inFlight[id]
  }

  /** The deliveries for one slot. */
  ghost function Of(updates: seq<Record>, slot: nat): seq<Record>
  {
    if updates == [] then []
    else
      var last := updates[|updates| - 1];
      Of(updates[..|updates| - 1], slot) + if last.slot == slot then [last] else []
  }

  ghost predicate StoredAt(store: map<nat, Record>, s: nat, v: SlotView)
  {
    v.stored == Lookup(store, s)
  }

  ghost predicate WindowAt(lastFired: map<nat, int>, pending: map<nat, Record>, s: nat, v: SlotView)
  {
    v.lastFired == Lookup(lastFired, s) && v.pending == Lookup(pending, s) && (s in pending ==> pending[s].slot == s)
  }

  /** One timer for a slot with a due time, and no other. */
  ghost predicate TimerAt(timers: Timers, flushPending: set<nat>, s: nat, v: SlotView)
  {
    && (s in flushPending <==> v.timer.Some?)
    && forall when: int :: timers[(s, when)] == if v.timer == Some(when) then 1 else 0
  }

  ghost predicate FlowAt(inFlight: map<nat, Flight>, updates: seq<Record>, s: nat, v: SlotView)
  {
    v.flights == FlightsOf(inFlight, s) && v.delivered == Of(updates, s)
  }

  ghost predicate StoreIs(store: map<nat, Record>, views: Views)
  {
    forall s: nat {:trigger StoredAt(store, s, views(s))} :: StoredAt(store, s, views(s))
  }

  ghost predicate WindowsAre(lastFired: map<nat, int>, pending: map<nat, Record>, views: Views)
  {
    forall s: nat {:trigger WindowAt(lastFired, pending, s, views(s))} :: WindowAt(lastFired, pending, s, views(s))
  }

  ghost predicate TimersAre(timers: Timers, flushPending: set<nat>, views: Views)
  {
    forall s: nat {:trigger TimerAt(timers, flushPending, s, views(s))} :: TimerAt(timers, flushPending, s, views(s))
  }

  ghost predicate FlowIs(inFlight: map<nat, Flight>, updates: seq<Record>, views: Views)
  {
    forall s: nat {:trigger FlowAt(inFlight, updates, s, views(s))} :: FlowAt(inFlight, updates, s, views(s))
  }

  ghost predicate AllInv(views: Views, clock: int, revisions: nat, stopped: bool)
  {
    forall s: nat {:trigger Inv(views(s), clock, revisions, stopped)} :: Inv(views(s), clock, revisions, stopped)
  }

  // ----- each step keeps it so -----

  lemma StoreKept(store: map<nat, Record>, views: Views, views': Views)
    requires StoreIs(store, views) && forall s: nat :: views'(s).stored == views(s).stored
    ensures StoreIs(store, views')
  {
    forall s: nat
      ensures StoredAt(store, s, views'(s))
    {
      assert StoredAt(store, s, views(s));
    }
  }

  lemma WindowsKept(lastFired: map<nat, int>, pending: map<nat, Record>, views: Views, views': Views)
    requires WindowsAre(lastFired, pending, views)
    requires forall s: nat :: views'(s).lastFired == views(s).lastFired && views'(s).pending == views(s).pending
    ensures WindowsAre(lastFired, pending, views')
  {
    forall s: nat
      ensures WindowAt(lastFired, pending, s, views'(s))
    {
      assert WindowAt(lastFired, pending, s, views(s));
    }
  }

  lemma TimersKept(timers: Timers, flushPending: set<nat>, views: Views, views': Views)
    requires TimersAre(timers, flushPending, views) && forall s: nat :: views'(s).timer == views(s).timer
    ensures TimersAre(timers, flushPending, views')
  {
    forall s: nat
      ensures TimerAt(timers, flushPending, s, views'(s))
    {
      assert TimerAt(timers, flushPending, s, views(s));
    }
  }

  lemma FlowKept(inFlight: map<nat, Flight>, updates: seq<Record>, views: Views, views': Views)
    requires FlowIs(inFlight, updates, views)
    requires forall s: nat :: views'(s).flights == views(s).flights && views'(s).delivered == views(s).delivered
    ensures FlowIs(inFlight, updates, views')
  {
    forall s: nat
      ensures FlowAt(inFlight, updates, s, views'(s))
    {
      assert FlowAt(inFlight, updates, s, views(s));
    }
  }

  lemma OfOneMore(updates: seq<Record>, r: Record, slot: nat)
    ensures Of(updates + [r], slot) == Of(updates, slot) + if r.slot == slot then [r] else []
  {
    assert (updates + [r])[..|updates|] == updates;
  }

  lemma DeliveredFlow(inFlight: map<nat, Flight>, updates: seq<Record>, r: Record, views: Views, v: SlotView)
    requires FlowIs(inFlight, updates, views) && v.flights == views(r.slot).flights
    requires v.delivered == views(r.slot).delivered + [r]
    ensures FlowIs(inFlight, updates + [r], With(views, r.slot, v))
  {
    forall s: nat
      ensures FlowAt(inFlight, updates + [r], s, With(views, r.slot, v)(s))
    {
      assert FlowAt(inFlight, updates, s, views(s));
      OfOneMore(updates, r, s);
    }
  }

  lemma TakenFlow(inFlight: map<nat, Flight>, id: nat, flight: Flight, updates: seq<Record>, views: Views, v: SlotView)
    requires FlowIs(inFlight, updates, views) && id !in inFlight
    requires v.flights == views(flight.record.slot).flights[id := flight]
    requires v.delivered == views(flight.record.slot).delivered
    ensures FlowIs(inFlight[id := flight], updates, With(views, flight.record.slot, v))
  {
    forall s: nat
      ensures FlowAt(inFlight[id := flight], updates, s, With(views, flight.record.slot, v)(s))
    {
      assert FlowAt(inFlight, updates, s, views(s));
      AddedFlight(inFlight, id, flight, s);
    }
  }

  lemma LandedFlow(inFlight: map<nat, Flight>, id: nat, updates: seq<Record>, views: Views, v: SlotView)
    requires FlowIs(inFlight, updates, views) && id in inFlight
    requires v.flights == views(inFlight[id].record.slot).flights - {id}
    requires v.delivered == views(inFlight[id].record.slot).delivered + [inFlight[id].record]
    ensures FlowIs(inFlight - {id}, updates + [inFlight[id].record], With(views, inFlight[id].record.slot, v))
  {
    var record := inFlight[id].record;
    forall s: nat
      ensures FlowAt(inFlight - {id}, updates + [record], s, With(views, record.slot, v)(s))
    {
      assert FlowAt(inFlight, updates, s, views(s));
      RemovedFlight(inFlight, id, s);
      OfOneMore(updates, record, s);
    }
  }

  lemma AddedFlight(inFlight: map<nat, Flight>, id: nat, flight: Flight, s: nat)
    requires id !in inFlight
    ensures FlightsOf(inFlight[id := flight], s) ==
      if s == flight.record.slot then FlightsOf(inFlight, s)[id := flight] else FlightsOf(inFlight, s)
  {
  }

  lemma RemovedFlight(inFlight: map<nat, Flight>, id: nat, s: nat)
    requires id in inFlight
    ensures FlightsOf(inFlight - {id}, s) ==
      if s == inFlight[id].record.slot then FlightsOf(inFlight, s) - {id} else FlightsOf(inFlight, s)
  {
  }

  lemma TimerAdded(timers: Timers, flushPending: set<nat>, views: Views, slot: nat, when: int, v: SlotView)
    requires TimersAre(timers, flushPending, views) && slot !in flushPending && v.timer == Some(when)
    ensures TimersAre(timers + multiset{(slot, when)}, flushPending + {slot}, With(views, slot, v))
  {
    forall s: nat
      ensures TimerAt(timers + multiset{(slot, when)}, flushPending + {slot}, s, With(views, slot, v)(s))
    {
      assert TimerAt(timers, flushPending, s, views(s));
    }
  }

  lemma TimerRan(timers: Timers, flushPending: set<nat>, views: Views, slot: nat, when: int, v: SlotView)
    requires TimersAre(timers, flushPending, views) && (slot, when) in timers && v.timer == None
    ensures views(slot).timer == Some(when)
    ensures TimersAre(timers - multiset{(slot, when)}, flushPending - {slot}, With(views, slot, v))
  {
    assert TimerAt(timers, flushPending, slot, views(slot));
    forall s: nat
      ensures TimerAt(timers - multiset{(slot, when)}, flushPending - {slot}, s, With(views, slot, v)(s))
    {
      assert TimerAt(timers, flushPending, s, views(s));
    }
  }

  /** The steps that touch one slot: its entries of the maps are what the new view says. */
  lemma WindowSet(lastFired: map<nat, int>, pending: map<nat, Record>, lastFired': map<nat, int>, pending': map<nat, Record>,
                  views: Views, slot: nat, v: SlotView)
    requires WindowsAre(lastFired, pending, views) && WindowAt(lastFired', pending', slot, v)
    requires lastFired' - {slot} == lastFired - {slot} && pending' - {slot} == pending - {slot}
    ensures WindowsAre(lastFired', pending', With(views, slot, v))
  {
    forall s: nat
      ensures WindowAt(lastFired', pending', s, With(views, slot, v)(s))
    {
      assert WindowAt(lastFired, pending, s, views(s));
      OtherKey(lastFired, lastFired', slot, s);
      OtherKey(pending, pending', slot, s);
    }
  }

  lemma OtherKey<T>(m: map<nat, T>, m': map<nat, T>, slot: nat, s: nat)
    requires m' - {slot} == m - {slot}
    ensures s != slot ==> Lookup(m', s) == Lookup(m, s)
  {
    assert s in m - {slot} <==> s in m && s != slot;
    assert s in m' - {slot} <==> s in m' && s != slot;
    if s in m && s != slot {
      assert (m - {slot})[s] == m[s] && (m' - {slot})[s] == m'[s];
    }
  }

  lemma StoreSet(store: map<nat, Record>, views: Views, record: Record, v: SlotView)
    requires StoreIs(store, views) && v.stored == Some(record)
    ensures StoreIs(store[record.slot := record], With(views, record.slot, v))
  {
    forall s: nat
      ensures StoredAt(store[record.slot := record], s, With(views, record.slot, v)(s))
    {
      assert StoredAt(store, s, views(s));
    }
  }

  lemma WindowsForgotten(lastFired: map<nat, int>, pending: map<nat, Record>, views: Views, gone: set<nat>)
    requires WindowsAre(lastFired, pending, views)
    ensures WindowsAre(lastFired - gone, pending - gone, WithForgotten(views, gone))
  {
    forall s: nat
      ensures WindowAt(lastFired - gone, pending - gone, s, WithForgotten(views, gone)(s))
    {
      assert WindowAt(lastFired, pending, s, views(s));
    }
  }

  lemma OthersForgotten(store: map<nat, Record>, timers: Timers, flushPending: set<nat>, inFlight: map<nat, Flight>,
                        updates: seq<Record>, views: Views, gone: set<nat>)
    requires StoreIs(store, views) && TimersAre(timers, flushPending, views) && FlowIs(inFlight, updates, views)
    ensures StoreIs(store, WithForgotten(views, gone)) && TimersAre(timers, flushPending, WithForgotten(views, gone))
    ensures FlowIs(inFlight, updates, WithForgotten(views, gone))
  {
    StoreKept(store, views, WithForgotten(views, gone));
    TimersKept(timers, flushPending, views, WithForgotten(views, gone));
    FlowKept(inFlight, updates, views, WithForgotten(views, gone));
  }

  lemma SuppressedFields(store: map<nat, Record>, lastFired: map<nat, int>, pending: map<nat, Record>, inFlight: map<nat, Flight>,
                         updates: seq<Record>, views: Views, record: Record)
    requires StoreIs(store, views) && WindowsAre(lastFired, pending, views) && FlowIs(inFlight, updates, views)
    requires record.slot in lastFired
    ensures views(record.slot).lastFired == Some(lastFired[record.slot])
    ensures var views' := With(views, record.slot, Suppressed(views(record.slot), record));
      && StoreIs(store[record.slot := record], views') && WindowsAre(lastFired, pending[record.slot := record], views')
      && FlowIs(inFlight, updates, views')
  {
    assert WindowAt(lastFired, pending, record.slot, views(record.slot));
    var v := Suppressed(views(record.slot), record);
    StoreSet(store, views, record, v);
    WindowSet(lastFired, pending, lastFired, pending[record.slot := record], views, record.slot, v);
    FlowKept(inFlight, updates, views, With(views, record.slot, v));
  }

  lemma SuppressedTimers(timers: Timers, flushPending: set<nat>, views: Views, record: Record)
    requires TimersAre(timers, flushPending, views) && views(record.slot).lastFired.Some?
    ensures var slot, when := record.slot, views(record.slot).lastFired.value + FIRE_INTERVAL;
      TimersAre(timers + if slot in flushPending then multiset{} else multiset{(slot, when)}, flushPending + {slot},
                With(views, slot, Suppressed(views(slot), record)))
  {
    var slot, when := record.slot, views(record.slot).lastFired.value + FIRE_INTERVAL;
    var v := Suppressed(views(slot), record);
    assert TimerAt(timers, flushPending, slot, views(slot));
    if slot in flushPending {
      assert flushPending + {slot} == flushPending && timers + multiset{} == timers;
      TimersKept(timers, flushPending, views, With(views, slot, v));
    } else {
      TimerAdded(timers, flushPending, views, slot, when, v);
    }
  }

  /** What a flush leaves: the suppressed result is taken unless the tracker is stopped. */
  function FlightsAfter(inFlight: map<nat, Flight>, pending: map<nat, Record>, slot: nat, id: nat, now: int, stopped: bool)
    : map<nat, Flight>
  {
    if slot in pending && !stopped then inFlight[id := Flight(pending[slot], now)] else inFlight
  }

  function PendingAfter(pending: map<nat, Record>, slot: nat, stopped: bool): map<nat, Record>
  {
    if slot in pending && !stopped then pending - {slot} else pending
  }

  function FiredAfter(lastFired: map<nat, int>, pending: map<nat, Record>, slot: nat, now: int, stopped: bool): map<nat, int>
  {
    if slot in pending && !stopped then lastFired[slot := now] else lastFired
  }

  lemma TakenFields(lastFired: map<nat, int>, pending: map<nat, Record>, inFlight: map<nat, Flight>, updates: seq<Record>,
                    views: Views, slot: nat, id: nat, now: int)
    requires WindowsAre(lastFired, pending, views) && FlowIs(inFlight, updates, views) && slot in pending && id !in inFlight
    ensures var views' := With(views, slot, Taken(views(slot), id, now, false));
      && WindowsAre(lastFired[slot := now], pending - {slot}, views')
      && FlowIs(inFlight[id := Flight(pending[slot], now)], updates, views')
  {
    var v := Taken(views(slot), id, now, false);
    assert WindowAt(lastFired, pending, slot, views(slot));
    WindowSet(lastFired, pending, lastFired[slot := now], pending - {slot}, views, slot, v);
    TakenFlow(inFlight, id, Flight(pending[slot], now), updates, views, v);
  }

  lemma NothingTakenFields(lastFired: map<nat, int>, pending: map<nat, Record>, inFlight: map<nat, Flight>, updates: seq<Record>,
                           views: Views, slot: nat, id: nat, now: int, stopped: bool)
    requires WindowsAre(lastFired, pending, views) && FlowIs(inFlight, updates, views) && (stopped || slot !in pending)
    ensures var views' := With(views, slot, Taken(views(slot), id, now, stopped));
      WindowsAre(lastFired, pending, views') && FlowIs(inFlight, updates, views')
  {
    assert WindowAt(lastFired, pending, slot, views(slot));
    WindowsKept(lastFired, pending, views, With(views, slot, Taken(views(slot), id, now, stopped)));
    FlowKept(inFlight, updates, views, With(views, slot, Taken(views(slot), id, now, stopped)));
  }

  lemma TakenKeeps(lastFired: map<nat, int>, pending: map<nat, Record>, inFlight: map<nat, Flight>, updates: seq<Record>,
                   views: Views, slot: nat, id: nat, now: int, stopped: bool)
    requires WindowsAre(lastFired, pending, views) && FlowIs(inFlight, updates, views) && id !in inFlight
    ensures var views' := With(views, slot, Taken(views(slot), id, now, stopped));
      && WindowsAre(FiredAfter(lastFired, pending, slot, now, stopped), PendingAfter(pending, slot, stopped), views')
      && FlowIs(FlightsAfter(inFlight, pending, slot, id, now, stopped), updates, views')
  {
    if slot in pending && !stopped {
      TakenFields(lastFired, pending, inFlight, updates, views, slot, id, now);
    } else {
      NothingTakenFields(lastFired, pending, inFlight, updates, views, slot, id, now, stopped);
    }
  }

  lemma TakenOthers(store: map<nat, Record>, timers: Timers, flushPending: set<nat>, views: Views, slot: nat, when: int,
                    id: nat, now: int, stopped: bool)
    requires StoreIs(store, views) && TimersAre(timers, flushPending, views) && (slot, when) in timers
    ensures views(slot).timer == Some(when)
    ensures var views' := With(views, slot, Taken(views(slot), id, now, stopped));
      StoreIs(store, views') && TimersAre(timers - multiset{(slot, when)}, flushPending - {slot}, views')
  {
    TimerRan(timers, flushPending, views, slot, when, Taken(views(slot), id, now, stopped));
    StoreKept(store, views, With(views, slot, Taken(views(slot), id, now, stopped)));
  }

  lemma NewFlight(inFlight: map<nat, Flight>, updates: seq<Record>, views: Views, slot: nat, id: nat)
    requires FlowIs(inFlight, updates, views) && id !in inFlight
    ensures id !in views(slot).flights
  {
    assert FlowAt(inFlight, updates, slot, views(slot));
  }

  lemma OldFlight(inFlight: map<nat, Flight>, updates: seq<Record>, views: Views, id: nat)
    requires FlowIs(inFlight, updates, views) && id in inFlight
    ensures var flights := views(inFlight[id].record.slot).flights; id in flights && flights[id] == inFlight[id]
  {
    assert FlowAt(inFlight, updates, inFlight[id].record.slot, views(inFlight[id].record.slot));
  }

  lemma LandedFields(store: map<nat, Record>, lastFired: map<nat, int>, pending: map<nat, Record>, timers: Timers,
                     flushPending: set<nat>, views: Views, slot: nat, id: nat, now: int)
    requires StoreIs(store, views) && WindowsAre(lastFired, pending, views) && TimersAre(timers, flushPending, views)
    requires id in views(slot).flights
    ensures var views' := With(views, slot, Landed(views(slot), id, now));
      StoreIs(store, views') && WindowsAre(lastFired, pending, views') && TimersAre(timers, flushPending, views')
  {
    StoreKept(store, views, With(views, slot, Landed(views(slot), id, now)));
    WindowsKept(lastFired, pending, views, With(views, slot, Landed(views(slot), id, now)));
    TimersKept(timers, flushPending, views, With(views, slot, Landed(views(slot), id, now)));
  }

  // ----- and every view keeps its invariant -----

  lemma UpsertKeepsAll(views: Views, lastFired: map<nat, int>, record: Record, clock: int, now: int, stopped: bool)
    requires record.revision > 0 && AllInv(views, clock, record.revision - 1, stopped) && clock <= now
    ensures AllInv(AfterUpsert(views, lastFired, record, now), now, record.revision, stopped)
  {
    forall s: nat
      ensures Inv(AfterUpsert(views, lastFired, record, now)(s), now, record.revision, stopped)
    {
      assert Inv(views(s), clock, record.revision - 1, stopped);
      UpsertStepInv(views(s), s == record.slot, record, clock, now, record.revision - 1, stopped);
      ForgetKeepsInv(if s == record.slot then Upserted(views(s), record, now) else views(s), now, record.revision, stopped);
    }
  }

  lemma TakeKeepsAll(views: Views, slot: nat, id: nat, clock: int, now: int, revisions: nat, stopped: bool)
    requires AllInv(views, clock, revisions, stopped) && clock <= now && id !in views(slot).flights
    requires views(slot).timer.Some? && now >= views(slot).timer.value
    ensures AllInv(With(views, slot, Taken(views(slot), id, now, stopped)), now, revisions, stopped)
  {
    forall s: nat
      ensures Inv(With(views, slot, Taken(views(slot), id, now, stopped))(s), now, revisions, stopped)
    {
      assert Inv(views(s), clock, revisions, stopped);
      if s == slot {
        TakeKeepsInv(views(s), id, clock, now, revisions, stopped);
      } else {
        TimeKeepsInv(views(s), clock, now, revisions, revisions, stopped);
      }
    }
  }

  lemma LandKeepsAll(views: Views, slot: nat, id: nat, clock: int, now: int, revisions: nat, stopped: bool)
    requires AllInv(views, clock, revisions, stopped) && clock <= now && id in views(slot).flights
    ensures AllInv(With(views, slot, Landed(views(slot), id, now)), now, revisions, stopped)
  {
    forall s: nat
      ensures Inv(With(views, slot, Landed(views(slot), id, now))(s), now, revisions, stopped)
    {
      assert Inv(views(s), clock, revisions, stopped);
      if s == slot {
        LandKeepsInv(views(s), id, clock, now, revisions, stopped);
      } else {
        TimeKeepsInv(views(s), clock, now, revisions, revisions, stopped);
      }
    }
  }

  lemma StorePruneKeepsAll(store: map<nat, Record>, views: Views, cutoff: nat, clock: int, revisions: nat, stopped: bool)
    requires StoreIs(store, views) && AllInv(views, clock, revisions, stopped)
    ensures StoreIs(map s | s in store && s >= cutoff :: store[s], WithStorePruned(views, cutoff))
    ensures AllInv(WithStorePruned(views, cutoff), clock, revisions, stopped)
  {
    forall s: nat
      ensures StoredAt(map s | s in store && s >= cutoff :: store[s], s, WithStorePruned(views, cutoff)(s))
      ensures Inv(WithStorePruned(views, cutoff)(s), clock, revisions, stopped)
    {
      assert StoredAt(store, s, views(s)) && Inv(views(s), clock, revisions, stopped);
      StorePruneKeepsInv(views(s), clock, revisions, stopped);
    }
  }

  lemma WindowPruneKeepsAll(lastFired: map<nat, int>, pending: map<nat, Record>, views: Views, cutoff: nat, clock: int,
                            revisions: nat, stopped: bool)
    requires WindowsAre(lastFired, pending, views) && AllInv(views, clock, revisions, stopped)
    ensures WindowsAre(map s | s in lastFired && s >= cutoff :: lastFired[s], pending, WithWindowPruned(views, cutoff))
    ensures AllInv(WithWindowPruned(views, cutoff), clock, revisions, stopped)
  {
    forall s: nat
      ensures WindowAt(map s | s in lastFired && s >= cutoff :: lastFired[s], pending, s, WithWindowPruned(views, cutoff)(s))
      ensures Inv(WithWindowPruned(views, cutoff)(s), clock, revisions, stopped)
    {
      assert WindowAt(lastFired, pending, s, views(s)) && Inv(views(s), clock, revisions, stopped);
      WindowPruneKeepsInv(views(s), clock, revisions, stopped);
    }
  }

  lemma StopKeepsAll(views: Views, clock: int, revisions: nat, stopped: bool)
    requires AllInv(views, clock, revisions, stopped)
    ensures AllInv(views, clock, revisions, true)
  {
    forall s: nat
      ensures Inv(views(s), clock, revisions, true)
    {
      assert Inv(views(s), clock, revisions, stopped);
      StopKeepsInv(views(s), clock, revisions, stopped);
    }
  }

  class Tracker {
    var store: map<nat, Record>
    var lastFired: map<nat, int>
    var pending: map<nat, Record>
    var flushPending: set<nat>
    var timers: Timers // outstanding AfterFunc timers: the slot, and when it runs at the earliest
    var inFlight: map<nat, Flight> // what the running flushTrailing goroutines have taken
    var updates: seq<Record> // delivered to the subscribers, in order
    var stopped: bool // the context is cancelled
    var revisions: nat
    var goroutines: nat // numbers the flushTrailing goroutines
    ghost var clock: int
    ghost var views: Views

    /** Everything but the store, which fireUpdate finds already changed. */
    ghost predicate Coupled()
      reads this
    {
      && WindowsAre(lastFired, pending, views) && TimersAre(timers, flushPending, views) && FlowIs(inFlight, updates, views)
      && forall id :: id in inFlight ==> id < goroutines
    }

    ghost predicate Valid()
      reads this
    {
      StoreIs(store, views) && Coupled() && AllInv(views, clock, revisions, stopped)
    }

    constructor (now: int)
      ensures Valid() && clock == now && !stopped && revisions == 0 && goroutines == 0 && updates == []
      ensures forall s: nat :: views(s) == UNTOUCHED
    {
      store, lastFired, pending, flushPending, timers, inFlight := map[], map[], map[], {}, multiset{}, map[];
      updates, stopped, revisions, goroutines, clock, views := [], false, 0, 0, now, s => UNTOUCHED;
      new;
      UntouchedInv(clock, revisions, stopped);
      forall s: nat
        ensures FlightsOf(map[], s) == map[]
      {
      }
    }

    // ----- upsert -----

    method Upsert(slot: nat, body: nat, now: int)
      requires Valid() && clock <= now
      modifies this
      ensures Valid() && clock == now && revisions == old(revisions) + 1 && stopped == old(stopped)
      ensures views == old(AfterUpsert(views, lastFired, Record(slot, revisions + 1, body), now))
      ensures goroutines == old(goroutines)
    {
      UpsertKeepsAll(views, lastFired, Record(slot, revisions + 1, body), clock, now, stopped);
      revisions, clock := revisions + 1, now;
      FireUpdate(Record(slot, revisions, body), now);
    }

    /** The record goes into the store and then to fireUpdate. */
    method FireUpdate(record: Record, now: int)
      requires Coupled() && StoreIs(store, views)
      modifies this`store, this`lastFired, this`pending, this`flushPending, this`timers, this`updates, this`views
      ensures Coupled() && StoreIs(store, views) && views == old(AfterUpsert(views, lastFired, record, now))
    {
      var slot := record.slot;
      assert WindowAt(lastFired, pending, slot, views(slot));
      if slot in lastFired && now - lastFired[slot] < FIRE_INTERVAL {
        Suppress(record);
      } else {
        Fire(record, now);
        PruneCoalescing(slot);
      }
    }

    method Suppress(record: Record)
      requires Coupled() && StoreIs(store, views) && record.slot in lastFired
      modifies this`store, this`pending, this`flushPending, this`timers, this`views
      ensures Coupled() && StoreIs(store, views)
      ensures old(views(record.slot).lastFired.Some?)
      ensures views == old(With(views, record.slot, Suppressed(views(record.slot), record)))
    {
      var slot := record.slot;
      SuppressedFields(store, lastFired, pending, inFlight, updates, views, record);
      SuppressedTimers(timers, flushPending, views, record);
      store := store[slot := record];
      Schedule(record);
      views := With(views, slot, Suppressed(views(slot), record));
    }

    /** Kept for the trailing flush, for which one timer runs. */
    method Schedule(record: Record)
      requires record.slot in lastFired
      modifies this`pending, this`flushPending, this`timers
      ensures pending == old(pending)[record.slot := record] && flushPending == old(flushPending) + {record.slot}
      ensures timers == old(timers) +
        if record.slot in old(flushPending) then multiset{}
        else multiset{(record.slot, lastFired[record.slot] + FIRE_INTERVAL)}
    {
      pending := pending[record.slot := record];
      if record.slot !in flushPending {
        flushPending := flushPending + {record.slot};
        timers := timers + multiset{(record.slot, lastFired[record.slot] + FIRE_INTERVAL)};
      }
    }

    method Fire(record: Record, now: int)
      requires Coupled() && StoreIs(store, views)
      modifies this`store, this`lastFired, this`pending, this`updates, this`views
      ensures Coupled() && StoreIs(store, views) && lastFired == old(lastFired[record.slot := now])
      ensures views == old(With(views, record.slot, Fired(views(record.slot), record, now)))
    {
      var slot := record.slot;
      ghost var v := Fired(views(slot), record, now);
      StoreSet(store, views, record, v);
      WindowSet(lastFired, pending, lastFired[slot := now], pending - {slot}, views, slot, v);
      DeliveredFlow(inFlight, updates, record, views, v);
      TimersKept(timers, flushPending, views, With(views, slot, v));
      store := store[slot := record];
      lastFired := lastFired[slot := now];
      pending := pending - {slot};
      updates := updates + [record];
      views := With(views, slot, v);
    }

    /** With more than 64 fired slots, those more than 64 behind are forgotten, suppressed results included. */
    method PruneCoalescing(slot: nat)
      requires Coupled() && StoreIs(store, views)
      modifies this`lastFired, this`pending, this`views
      ensures Coupled() && StoreIs(store, views) && views == old(WithForgotten(views, Stale(lastFired, slot)))
      ensures forall s :: s in lastFired <==> s in old(lastFired) && (|old(lastFired)| <= 64 || s + 64 >= slot)
    {
      ghost var gone := Stale(lastFired, slot);
      WindowsForgotten(lastFired, pending, views, gone);
      OthersForgotten(store, timers, flushPending, inFlight, updates, views, gone);
      views := WithForgotten(views, gone);
      Forget(slot);
    }

    method Forget(slot: nat)
      modifies this`lastFired, this`pending
      ensures lastFired == old(lastFired - Stale(lastFired, slot)) && pending == old(pending - Stale(lastFired, slot))
      ensures forall s :: s in lastFired <==> s in old(lastFired) && (|old(lastFired)| <= 64 || s + 64 >= slot)
    {
      ghost var fired, suppressed := lastFired, pending;
      ghost var gone: set<nat> := {};
      if |lastFired| > KEEP_SLOTS {
        var rest := lastFired.Keys;
        while rest != {}
          invariant rest <= fired.Keys && lastFired == fired - gone && pending == suppressed - gone
          invariant gone == set s | s in fired && s + KEEP_SLOTS < slot && s !in rest
          decreases |rest|
        {
          var firedSlot :| firedSlot in rest;
          rest := rest - {firedSlot};
          if firedSlot + KEEP_SLOTS < slot {
            lastFired := lastFired - {firedSlot};
            pending := pending - {firedSlot};
            gone := gone + {firedSlot};
          }
        }
      }
      assert gone == Stale(fired, slot);
    }

    // ----- flushTrailing -----

    /** flushTrailing up to the unlock: a timer runs, not before its time. */
    method TakeTrailing(slot: nat, when: int, now: int)
      requires Valid() && clock <= now && (slot, when) in timers && now >= when
      modifies this`lastFired, this`pending, this`flushPending, this`timers, this`inFlight, this`goroutines, this`clock, this`views
      ensures Valid() && clock == now && goroutines == old(goroutines) + 1
      ensures views == old(With(views, slot, Taken(views(slot), goroutines, now, stopped)))
    {
      TakenOthers(store, timers, flushPending, views, slot, when, goroutines, now, stopped);
      NewFlight(inFlight, updates, views, slot, goroutines);
      TakeKeepsAll(views, slot, goroutines, clock, now, revisions, stopped);
      TakenKeeps(lastFired, pending, inFlight, updates, views, slot, goroutines, now, stopped);
      TakeOut(slot, when, now);
      clock, views := now, With(views, slot, Taken(views(slot), goroutines - 1, now, stopped));
    }

    method TakeOut(slot: nat, when: int, now: int)
      modifies this`lastFired, this`pending, this`flushPending, this`timers, this`inFlight, this`goroutines
      ensures timers == old(timers) - multiset{(slot, when)} && flushPending == old(flushPending) - {slot}
      ensures goroutines == old(goroutines) + 1
      ensures inFlight == old(FlightsAfter(inFlight, pending, slot, goroutines, now, stopped))
      ensures pending == old(PendingAfter(pending, slot, stopped))
      ensures lastFired == old(FiredAfter(lastFired, pending, slot, now, stopped))
    {
      timers := timers - multiset{(slot, when)};
      flushPending := flushPending - {slot};
      TakePending(slot, now);
    }

    method TakePending(slot: nat, now: int)
      modifies this`lastFired, this`pending, this`inFlight, this`goroutines
      ensures goroutines == old(goroutines) + 1
      ensures inFlight == old(FlightsAfter(inFlight, pending, slot, goroutines, now, stopped))
      ensures pending == old(PendingAfter(pending, slot, stopped))
      ensures lastFired == old(FiredAfter(lastFired, pending, slot, now, stopped))
    {
      if slot in pending && !stopped {
        inFlight := inFlight[goroutines := Flight(pending[slot], now)];
        pending := pending - {slot};
        lastFired := lastFired[slot := now];
      }
      goroutines := goroutines + 1;
    }

    /** flushTrailing after the unlock. */
    method Deliver(id: nat, now: int)
      requires Valid() && clock <= now && id in inFlight
      modifies this`inFlight, this`updates, this`clock, this`views
      ensures Valid() && clock == now && updates == old(updates + [inFlight[id].record])
      ensures old(id in views(inFlight[id].record.slot).flights)
      ensures views == old(With(views, inFlight[id].record.slot, Landed(views(inFlight[id].record.slot), id, now)))
    {
      ghost var slot := inFlight[id].record.slot;
      OldFlight(inFlight, updates, views, id);
      ghost var v := Landed(views(slot), id, now);
      LandKeepsAll(views, slot, id, clock, now, revisions, stopped);
      LandedFlow(inFlight, id, updates, views, v);
      LandedFields(store, lastFired, pending, timers, flushPending, views, slot, id, now);
      updates := updates + [inFlight[id].record];
      inFlight := inFlight - {id};
      clock, views := now, With(views, slot, v);
    }

    // ----- pruneForEpoch -----

    /** The records go first ... */
    method PruneStore(cutoff: nat)
      requires Valid()
      modifies this`store, this`views
      ensures Valid() && views == old(WithStorePruned(views, cutoff))
      ensures forall s :: s in store <==> s in old(store) && s >= cutoff
    {
      StorePruneKeepsAll(store, views, cutoff, clock, revisions, stopped);
      WindowsKept(lastFired, pending, views, WithStorePruned(views, cutoff));
      TimersKept(timers, flushPending, views, WithStorePruned(views, cutoff));
      FlowKept(inFlight, updates, views, WithStorePruned(views, cutoff));
      store := map s | s in store && s >= cutoff :: store[s];
      views := WithStorePruned(views, cutoff);
    }

    /** ... and then, under the tracker's lock, the coalescing times. */
    method PruneFired(cutoff: nat)
      requires Valid()
      modifies this`lastFired, this`views
      ensures Valid() && views == old(WithWindowPruned(views, cutoff))
      ensures forall s :: s in lastFired <==> s in old(lastFired) && s >= cutoff
    {
      WindowPruneKeepsAll(lastFired, pending, views, cutoff, clock, revisions, stopped);
      StoreKept(store, views, WithWindowPruned(views, cutoff));
      TimersKept(timers, flushPending, views, WithWindowPruned(views, cutoff));
      FlowKept(inFlight, updates, views, WithWindowPruned(views, cutoff));
      lastFired := map s | s in lastFired && s >= cutoff :: lastFired[s];
      views := WithWindowPruned(views, cutoff);
    }

    method Stop()
      requires Valid()
      modifies this`stopped
      ensures Valid() && stopped
    {
      StopKeepsAll(views, clock, revisions, stopped);
      stopped := true;
    }

    // ----- what the subscribers get -----

    /** Nothing runs for the slot. */
    ghost predicate QuietAt(s: nat)
      reads this
    {
      s !in flushPending && forall id :: id in inFlight ==> inFlight[id].record.slot != s
    }

    ghost predicate NoOther(s: nat, when: int)
      reads this
    {
      forall other :: other != when ==> timers[(s, other)] == 0
    }

    /** Exactly one timer runs for the slot, within FIRE_INTERVAL from now. */
    ghost predicate OneTimer(s: nat)
      reads this
    {
      exists when :: timers[(s, when)] == 1 && when <= clock + FIRE_INTERVAL && NoOther(s, when)
    }

    /**
     Unless the prune has dropped it, the stored record has been delivered, is being delivered, or is suppressed with
     exactly one timer for it, which runs within FIRE_INTERVAL.
     */
    lemma NothingStranded(s: nat)
      requires Valid() && !stopped && s in store && !views(s).dropped
      ensures || store[s] in updates
              || (exists id :: id in inFlight && inFlight[id].record == store[s])
              || (s in pending && pending[s] == store[s] && OneTimer(s))
    {
      var v := views(s);
      AtSlot(s);
      NotStranded(v, clock, revisions);
      OfAre(updates, s);
      if id :| id in v.flights && v.flights[id].record == store[s] {
        assert id in inFlight && inFlight[id].record == store[s];
      } else if v.timer.Some? {
        assert timers[(s, v.timer.value)] == 1;
      }
    }

    lemma AtSlot(s: nat)
      requires Valid()
      ensures StoredAt(store, s, views(s)) && WindowAt(lastFired, pending, s, views(s))
      ensures TimerAt(timers, flushPending, s, views(s)) && FlowAt(inFlight, updates, s, views(s))
      ensures Inv(views(s), clock, revisions, stopped)
    {
    }

    /**
     When nothing runs for the slot, its final state was delivered. It came last if and only if its delivery left no
     older result in flight; so it did if every flush delivered in less than FIRE_INTERVAL, in an unpruned window.
     */
    lemma FinalStateDelivered(s: nat)
      requires Valid() && !stopped && s in store && !views(s).dropped && QuietAt(s)
      ensures store[s] in updates
      ensures LastFor(updates, s) == Some(store[s]) <==> !views(s).behind
      ensures !views(s).disturbed ==> LastFor(updates, s) == Some(store[s])
    {
      AtSlot(s);
      NoFlights(inFlight, s);
      FinalStateLast(views(s), clock, revisions);
      OfAre(updates, s);
    }
  }

  /** The last delivery for the slot. */
  ghost function LastFor(updates: seq<Record>, slot: nat): Option<Record>
  {
    if updates == [] then None
    else if updates[|updates| - 1].slot == slot then Some(updates[|updates| - 1])
    else LastFor(updates[..|updates| - 1], slot)
  }

  lemma {:induction false} OfAre(updates: seq<Record>, slot: nat)
    ensures forall r :: r in Of(updates, slot) <==> r in updates && r.slot == slot
    ensures LastFor(updates, slot) ==
      if Of(updates, slot) == [] then None else Some(Of(updates, slot)[|Of(updates, slot)| - 1])
  {
    if updates != [] {
      var n := |updates| - 1;
      OfAre(updates[..n], slot);
      assert updates == updates[..n] + [updates[n]];
    }
  }

  /** Two updates in a window of the slot, and the trailing flush takes the second when the window closes. */
  method FlushUnderWay(slot: nat, body: nat) returns (t: Tracker)
    ensures fresh(t) && t.Valid() && !t.stopped && t.clock == 1000 && t.revisions == 2
    ensures t.views(slot).lastFired == Some(1000) && t.views(slot).delivered == [Record(slot, 1, body)]
    ensures t.views(slot).flights == map[0 := Flight(Record(slot, 2, body), 1000)] && t.views(slot).timer == None
  {
    var first, second := Record(slot, 1, body), Record(slot, 2, body);
    t := new Tracker(0);
    OwnStep(t.views, t.lastFired, first, 0);
    t.Upsert(slot, body, 0);
    assert t.views(slot) == Fired(UNTOUCHED, first, 0);
    OwnStep(t.views, t.lastFired, second, 10);
    t.Upsert(slot, body, 10);
    assert t.views(slot) == Suppressed(Fired(UNTOUCHED, first, 0), second);
    t.AtSlot(slot);
    assert t.timers[(slot, 1000)] == 1;
    t.TakeTrailing(slot, 1000, 1000);
  }

  /** FIRE_INTERVAL later, with the flush still under way, the third update is delivered at once. */
  method OvertakenFlush(slot: nat, body: nat) returns (t: Tracker)
    ensures fresh(t) && t.Valid() && !t.stopped && t.clock == 2000
    ensures t.views(slot).stored == Some(Record(slot, 3, body)) && !t.views(slot).dropped
    ensures t.views(slot).delivered == [Record(slot, 1, body), Record(slot, 3, body)] && t.views(slot).timer == None
    ensures 0 in t.inFlight && t.inFlight[0] == Flight(Record(slot, 2, body), 1000)
    ensures t.views(slot).flights == map[0 := t.inFlight[0]]
  {
    t := FlushUnderWay(slot, body);
    OwnStep(t.views, t.lastFired, Record(slot, 3, body), 2000);
    t.Upsert(slot, body, 2000);
    t.AtSlot(slot);
    assert 0 in FlightsOf(t.inFlight, slot);
  }

  /**
   The bound is tight: a flush that delivers exactly FIRE_INTERVAL after it took its result can be overtaken by the next
   update, and the subscribers end on the older record.
   */
  method StaleFinalDelivery(slot: nat, body: nat) returns (t: Tracker)
    ensures fresh(t) && t.Valid() && !t.stopped && slot in t.store && !t.views(slot).dropped && t.QuietAt(slot)
    ensures LastFor(t.updates, slot) == Some(Record(slot, 2, body)) && t.store[slot] == Record(slot, 3, body)
  {
    t := OvertakenFlush(slot, body);
    t.Deliver(0, 2000);
    assert t.views(slot).flights == map[];
    t.AtSlot(slot);
    OfAre(t.updates, slot);
    NoFlights(t.inFlight, slot);
  }

  lemma NoFlights(inFlight: map<nat, Flight>, slot: nat)
    ensures FlightsOf(inFlight, slot) == map[] <==> forall id :: id in inFlight ==> inFlight[id].record.slot != slot
  {
    assert forall id :: id in inFlight && inFlight[id].record.slot == slot ==> id in FlightsOf(inFlight, slot);
  }
}
