/**
 Every interleaving of writers, flushes and persistence failures of the write-behind
 store: what a reachable state guarantees about the memory and the backing table.
 */
module StoreRuns {
  import opened Common
  import opened Store

  datatype Flight<K(!new,==), V(!new)> = Idle | InFlight(batch: Batch<K, V>) | Failed(batch: Batch<K, V>)

  /** `stale` holds the rows that a failed Load left unread. */
  datatype World<K(!new,==), V(!new)> = World(store: State<K, V>, table: map<K, V>, flight: Flight<K, V>, stale: map<K, V>)

  datatype Action<!K(!new,==), V(!new)> =
    | Put(key: K, value: V)
    | Delete(key: K)
    | Prune(drop: K -> bool)
    | Take // a flush swaps out the pending sets
    | Persist // the table takes the batch
    | Fail(partly: set<K>) // the table reports failure, having applied the batch for these keys
    | Requeue // the flush puts the failed batch back
    | Attach(loads: bool) // SetPersistence, whose Load may fail

  function Applied<K(!new,==), V(!new)>(table: map<K, V>, b: Batch<K, V>): map<K, V>
  {
    (table + b.upserts) - b.deletes
  }

  function PartlyApplied<K(!new,==), V(!new)>(table: map<K, V>, b: Batch<K, V>, partly: set<K>): map<K, V>
  {
    (table + (map k | k in b.upserts && k in partly :: b.upserts[k])) - b.deletes * partly
  }

  ghost function Step<K(!new), V(!new)>(w: World<K, V>, a: Action<K, V>): World<K, V>
  {
    match a
    case Put(key, value) => w.(store := AfterPut(w.store, key, value))
    case Delete(key) => w.(store := AfterDelete(w.store, key))
    case Prune(drop) => w.(store := AfterPrune(w.store, drop))
    case Take =>
      if w.flight.Idle? && !NothingPending(w.store)
      then w.(store := AfterTake(w.store), flight := InFlight(BatchOf(w.store))) else w
    case Persist =>
      if w.flight.InFlight? then w.(table := Applied(w.table, w.flight.batch), flight := Idle) else w
    case Fail(partly) =>
      if w.flight.InFlight?
      then w.(table := PartlyApplied(w.table, w.flight.batch, partly), flight := Failed(w.flight.batch)) else w
    case Requeue =>
      if w.flight.Failed? then w.(store := AfterRequeue(w.store, w.flight.batch), flight := Idle) else w
    case Attach(loads) =>
      if w.store.attached then w
      else if loads then w.(store := AfterAttachEnd(AfterAttachBegin(w.store), w.table))
      else w.(store := AfterAttachBegin(w.store), stale := w.table - w.store.entries.Keys)
  }

  ghost function Run<K(!new), V(!new)>(w: World<K, V>, actions: seq<Action<K, V>>): World<K, V>
    decreases |actions|
  {
    if actions == [] then w else Run(Step(w, actions[0]), actions[1..])
  }

  /** A store just made, over a table left by an earlier run of the program. */
  ghost predicate Initial<K(!new), V(!new)>(w: World<K, V>)
  {
    && w.store == State(map[], w.store.keepExisting, false, {}, {})
    && w.flight == Idle && w.stale == map[]
  }

  // ----- the invariant -----

  ghost predicate PendingOk<K(!new), V(!new)>(s: State<K, V>)
  {
    && s.dirty <= s.entries.Keys
    && s.deleted !! s.entries.Keys
    && (!s.attached ==> s.dirty == {} && s.deleted == {})
  }

  /** A batch still says the truth about every key that was not written again since it was taken. */
  ghost predicate BatchOk<K(!new), V(!new)>(s: State<K, V>, b: Batch<K, V>)
  {
    && b.upserts.Keys == b.dirtySnap
    && b.dirtySnap !! b.deletes
    && (forall k :: k in b.dirtySnap && k !in s.dirty && k !in s.deleted ==> k in s.entries && s.entries[k] == b.upserts[k])
    && (forall k :: k in b.deletes && k !in s.dirty && k !in s.deleted ==> k !in s.entries)
  }

  ghost predicate Carried<K(!new), V(!new)>(f: Flight<K, V>, k: K)
  {
    !f.Idle? && (k in f.batch.dirtySnap || k in f.batch.deletes)
  }

  /** Memory and table say the same about k, an unread row apart. */
  ghost predicate Agrees<K(!new), V(!new)>(w: World<K, V>, k: K)
  {
    && (k in w.store.entries ==> k in w.table && w.table[k] == w.store.entries[k])
    && (k in w.table && k !in w.store.entries ==> k in w.stale && w.stale[k] == w.table[k])
  }

  ghost predicate Inv<K(!new), V(!new)>(w: World<K, V>)
  {
    && PendingOk(w.store)
    && (!w.store.attached ==> w.flight.Idle? && w.stale == map[])
    && (!w.flight.Idle? ==> BatchOk(w.store, w.flight.batch))
    && (w.store.attached ==> forall k ::
      k !in w.store.dirty && k !in w.store.deleted && !Carried(w.flight, k) ==> Agrees(w, k))
  }

  lemma WriteKeepsInv<K(!new), V(!new)>(w: World<K, V>, a: Action<K, V>)
    requires Inv(w) && (a.Put? || a.Delete? || a.Prune?)
    ensures Inv(Step(w, a))
  {
    if !w.store.attached {
      assert !Step(w, a).store.attached;
    }
  }

  lemma TakeKeepsInv<K(!new), V(!new)>(w: World<K, V>)
    requires Inv(w)
    ensures Inv(Step(w, Take))
  {
    assert BatchOf(w.store).upserts.Keys == w.store.dirty;
  }

  lemma PersistKeepsInv<K(!new), V(!new)>(w: World<K, V>)
    requires Inv(w)
    ensures Inv(Step(w, Persist))
  {
    var w' := Step(w, Persist);
    if w.flight.InFlight? {
      var b := w.flight.batch;
      forall k | k !in w'.store.dirty && k !in w'.store.deleted
        ensures Agrees(w', k)
      {
        if Carried(w.flight, k) {
        } else {
          assert Agrees(w, k);
        }
      }
    }
  }

  lemma FailKeepsInv<K(!new), V(!new)>(w: World<K, V>, partly: set<K>)
    requires Inv(w)
    ensures Inv(Step(w, Fail(partly)))
  {
    var w' := Step(w, Fail(partly));
    if w.flight.InFlight? {
      forall k | k !in w'.store.dirty && k !in w'.store.deleted && !Carried(w'.flight, k)
        ensures Agrees(w', k)
      {
        assert Agrees(w, k);
      }
    }
  }

  lemma RequeueKeepsInv<K(!new), V(!new)>(w: World<K, V>)
    requires Inv(w)
    ensures Inv(Step(w, Requeue))
  {
    var w' := Step(w, Requeue);
    if w.flight.Failed? {
      forall k | k !in w'.store.dirty && k !in w'.store.deleted
        ensures Agrees(w', k)
      {
        assert Agrees(w, k);
      }
    }
  }

  lemma AttachKeepsInv<K(!new), V(!new)>(w: World<K, V>, loads: bool)
    requires Inv(w)
    ensures Inv(Step(w, Attach(loads)))
  {
  }

  lemma StepKeepsInv<K(!new), V(!new)>(w: World<K, V>, a: Action<K, V>)
    requires Inv(w)
    ensures Inv(Step(w, a))
  {
    match a
    case Put(_, _) => WriteKeepsInv(w, a);
    case Delete(_) => WriteKeepsInv(w, a);
    case Prune(_) => WriteKeepsInv(w, a);
    case Take => TakeKeepsInv(w);
    case Persist => PersistKeepsInv(w);
    case Fail(partly) => FailKeepsInv(w, partly);
    case Requeue => RequeueKeepsInv(w);
    case Attach(loads) => AttachKeepsInv(w, loads);
  }

  lemma {:induction false} RunKeepsInv<K(!new), V(!new)>(w: World<K, V>, actions: seq<Action<K, V>>)
    requires Inv(w)
    ensures Inv(Run(w, actions))
    decreases |actions|
  {
    if actions != [] {
      StepKeepsInv(w, actions[0]);
      RunKeepsInv(Step(w, actions[0]), actions[1..]);
    }
  }

  lemma InitialInv<K(!new), V(!new)>(w: World<K, V>)
    requires Initial(w)
    ensures Inv(w)
  {
  }

  // ----- what the invariant means to a user of the store -----

  /** In every reachable state; the last clause is the one a lost update would break. */
  lemma ReachableState<K(!new), V(!new)>(w: World<K, V>, actions: seq<Action<K, V>>, k: K)
    requires Initial(w)
    ensures var r := Run(w, actions);
      && (k in r.store.dirty ==> k in r.store.entries)
      && (k in r.store.deleted ==> k !in r.store.entries && k !in r.store.dirty)
      && (r.store.attached && k !in r.store.dirty && k !in r.store.deleted && !Carried(r.flight, k) ==> Agrees(r, k))
      && (r.store.attached && Carried(r.flight, k) && k !in r.store.dirty && k !in r.store.deleted ==>
            if k in r.flight.batch.upserts then k in r.store.entries && r.store.entries[k] == r.flight.batch.upserts[k]
            else k in r.flight.batch.deletes && k !in r.store.entries)
  {
    InitialInv(w);
    RunKeepsInv(w, actions);
  }

  /** Rows that no Load ever read and that nobody wrote since. */
  ghost function LeftOver<K(!new), V(!new)>(w: World<K, V>): set<K>
  {
    set k | k in w.stale && k in w.table && k !in w.store.entries && k !in w.store.deleted
  }

  ghost function FlushedOnce<K(!new), V(!new)>(w: World<K, V>): World<K, V>
  {
    Step(Step(w, Take), Persist)
  }

  lemma FlushSettles<K(!new), V(!new)>(w: World<K, V>)
    requires Inv(w) && w.store.attached && w.flight.Idle?
    ensures var w' := FlushedOnce(w);
      && Inv(w') && w'.flight.Idle? && NothingPending(w'.store)
      && w'.store.entries == w.store.entries && w'.store.attached && w'.stale == w.stale
      && forall k :: Agrees(w', k)
  {
    StepKeepsInv(w, Take);
    StepKeepsInv(Step(w, Take), Persist);
  }

  /** A flush with no writer in between makes the table equal to the entries, unread rows apart. */
  lemma QuiescentFlush<K(!new), V(!new)>(w: World<K, V>)
    requires Inv(w) && w.store.attached && w.flight.Idle?
    ensures var w' := FlushedOnce(w);
      && w'.flight.Idle? && NothingPending(w'.store) && w'.store.entries == w.store.entries
      && (forall k :: k in w.store.entries ==> k in w'.table && w'.table[k] == w.store.entries[k])
      && (forall k :: k in w'.table && k !in w.store.entries <==> k in LeftOver(w))
      && (w'.table == w.store.entries <==> LeftOver(w) == {})
  {
    var w' := FlushedOnce(w);
    FlushSettles(w);
    forall k
      ensures k in w'.table && k !in w.store.entries <==> k in LeftOver(w)
    {
      assert Agrees(w', k);
      assert k !in w.store.dirty && k !in w.store.deleted ==> Agrees(w, k);
    }
    if LeftOver(w) == {} {
      assert forall k :: Agrees(w', k);
      assert w'.table.Keys == w.store.entries.Keys;
    } else {
      var k :| k in LeftOver(w);
      assert k in w'.table && k !in w.store.entries;
    }
  }

  /** A failed flush, whatever part of it the table took: nothing pending is forgotten and readers see no change. */
  lemma FailedFlush<K(!new), V(!new)>(w: World<K, V>, partly: set<K>)
    requires Inv(w) && w.store.attached && w.flight.Idle?
    ensures var w' := Step(Step(Step(w, Take), Fail(partly)), Requeue);
      && Inv(w') && w'.store == w.store && w'.flight.Idle? && w'.stale == w.stale
  {
    StepKeepsInv(w, Take);
    StepKeepsInv(Step(w, Take), Fail(partly));
    StepKeepsInv(Step(Step(w, Take), Fail(partly)), Requeue);
  }

  ghost function FailedFlushes<K(!new), V(!new)>(w: World<K, V>, failures: seq<set<K>>): World<K, V>
    decreases |failures|
  {
    if failures == [] then w
    else FailedFlushes(Step(Step(Step(w, Take), Fail(failures[0])), Requeue), failures[1..])
  }

  /** After any number of failed flushes one successful flush still writes everything. */
  lemma {:induction false} RetriesLoseNothing<K(!new), V(!new)>(w: World<K, V>, failures: seq<set<K>>)
    requires Inv(w) && w.store.attached && w.flight.Idle? && w.stale == map[]
    ensures FlushedOnce(FailedFlushes(w, failures)).table == w.store.entries
    decreases |failures|
  {
    if failures == [] {
      QuiescentFlush(w);
    } else {
      FailedFlush(w, failures[0]);
      RetriesLoseNothing(Step(Step(Step(w, Take), Fail(failures[0])), Requeue), failures[1..]);
    }
  }

  lemma {:induction false} LoadedLeavesNothingStale<K(!new), V(!new)>(w: World<K, V>, actions: seq<Action<K, V>>)
    requires w.stale == map[]
    requires forall a :: a in actions && a.Attach? ==> a.loads
    ensures Run(w, actions).stale == map[]
    decreases |actions|
  {
    if actions != [] {
      assert actions[0] in actions;
      LoadedLeavesNothingStale(Step(w, actions[0]), actions[1..]);
    }
  }

  /**
   From a store just made, through any interleaving in which every Load succeeds: once no flush is under way, any number
   of failed flushes and then a successful one leave exactly the entries in the table.
   */
  lemma NothingIsLost<K(!new), V(!new)>(w: World<K, V>, actions: seq<Action<K, V>>, failures: seq<set<K>>)
    requires Initial(w) && forall a :: a in actions && a.Attach? ==> a.loads
    requires Run(w, actions).store.attached && Run(w, actions).flight.Idle?
    ensures FlushedOnce(FailedFlushes(Run(w, actions), failures)).table == Run(w, actions).store.entries
  {
    InitialInv(w);
    RunKeepsInv(w, actions);
    LoadedLeavesNothingStale(w, actions);
    RetriesLoseNothing(Run(w, actions), failures);
  }

  // ----- persistence never changes what readers see -----

  ghost function Writes<K(!new), V(!new)>(actions: seq<Action<K, V>>): seq<Action<K, V>>
  {
    if actions == [] then []
    else if IsFlushStep(actions[0]) then Writes(actions[1..])
    else [actions[0]] + Writes(actions[1..])
  }

  ghost predicate SameToReaders<K(!new), V(!new)>(w: World<K, V>, v: World<K, V>)
  {
    && w.store.entries == v.store.entries
    && w.store.keepExisting == v.store.keepExisting
    && w.store.attached == v.store.attached
    && (!w.store.attached ==> w.table == v.table && w.flight.Idle? && v.flight.Idle?)
  }

  ghost predicate IsFlushStep<K(!new), V(!new)>(a: Action<K, V>)
  {
    a.Take? || a.Persist? || a.Fail? || a.Requeue?
  }

  lemma FlushStepIsInvisible<K(!new), V(!new)>(w: World<K, V>, v: World<K, V>, a: Action<K, V>)
    requires SameToReaders(w, v) && IsFlushStep(a)
    ensures SameToReaders(Step(w, a), v)
  {
  }

  lemma WriteIsTheSame<K(!new), V(!new)>(w: World<K, V>, v: World<K, V>, a: Action<K, V>)
    requires SameToReaders(w, v) && !IsFlushStep(a)
    ensures SameToReaders(Step(w, a), Step(v, a))
  {
  }

  lemma {:induction false} ReadersSeeOnlyWrites<K(!new), V(!new)>(w: World<K, V>, v: World<K, V>, actions: seq<Action<K, V>>)
    requires SameToReaders(w, v)
    ensures SameToReaders(Run(w, actions), Run(v, Writes(actions)))
    decreases |actions|
  {
    if actions != [] {
      var a := actions[0];
      if IsFlushStep(a) {
        FlushStepIsInvisible(w, v, a);
        ReadersSeeOnlyWrites(Step(w, a), v, actions[1..]);
      } else {
        WriteIsTheSame(w, v, a);
        ReadersSeeOnlyWrites(Step(w, a), Step(v, a), actions[1..]);
        assert Writes(actions) == [a] + Writes(actions[1..]);
        assert Run(v, [a] + Writes(actions[1..])) == Run(Step(v, a), Writes(actions[1..])) by {
          assert ([a] + Writes(actions[1..]))[1..] == Writes(actions[1..]);
        }
      }
    }
  }

  // ----- what readers see is what was written -----

  function Lookup<K(==), V>(m: map<K, V>, key: K): Option<V>
  {
    if key in m then Some(m[key]) else None
  }

  ghost predicate HasAttach<K(!new), V(!new)>(actions: seq<Action<K, V>>)
  {
    actions != [] && (actions[|actions| - 1].Attach? || HasAttach(actions[..|actions| - 1]))
  }

  ghost predicate AttachesFirst<K(!new), V(!new)>(w: World<K, V>, before: seq<Action<K, V>>, a: Action<K, V>)
  {
    a.Attach? && !w.store.attached && !HasAttach(before)
  }

  /**
   The value of one key by the actions alone: a put sets it, unless the store keeps what it has; a delete or a matching
   prune takes it; and the first attach, if its Load works, fills it in from the table when there is none.
   */
  ghost function Held<K(!new), V(!new)>(w: World<K, V>, actions: seq<Action<K, V>>, key: K): Option<V>
  {
    if actions == [] then Lookup(w.store.entries, key)
    else
      var last, before := actions[|actions| - 1], Held(w, actions[..|actions| - 1], key);
      if last.Put? && last.key == key && !(w.store.keepExisting && before.Some?) then Some(last.value)
      else if (last.Delete? && last.key == key) || (last.Prune? && last.drop(key)) then None
      else if AttachesFirst(w, actions[..|actions| - 1], last) && last.loads && before.None? then Lookup(w.table, key)
      else before
  }

  lemma {:induction false} RunOfLast<K(!new), V(!new)>(w: World<K, V>, before: seq<Action<K, V>>, last: Action<K, V>)
    ensures Run(w, before + [last]) == Step(Run(w, before), last)
    decreases |before|
  {
    if before == [] {
      assert [last][1..] == [] && [] + [last] == [last];
    } else {
      assert (before + [last])[1..] == before[1..] + [last];
      RunOfLast(Step(w, before[0]), before[1..], last);
    }
  }

  lemma StepAttaches<K(!new), V(!new)>(w: World<K, V>, a: Action<K, V>)
    requires !w.store.attached ==> w.flight.Idle?
    ensures var w' := Step(w, a);
      && w'.store.keepExisting == w.store.keepExisting && (w'.store.attached <==> w.store.attached || a.Attach?)
      && (!w'.store.attached ==> w'.table == w.table && w'.flight.Idle?)
  {
  }

  /** The first attach decides whether the store is attached, and until then the table stays as it was. */
  lemma {:induction false} UntilAttached<K(!new), V(!new)>(w: World<K, V>, actions: seq<Action<K, V>>)
    requires !w.store.attached ==> w.flight.Idle?
    ensures var r := Run(w, actions);
      && r.store.keepExisting == w.store.keepExisting
      && (r.store.attached <==> w.store.attached || HasAttach(actions))
      && (!r.store.attached ==> r.table == w.table && r.flight.Idle?)
  {
    if actions != [] {
      var n := |actions| - 1;
      UntilAttached(w, actions[..n]);
      assert actions == actions[..n] + [actions[n]];
      RunOfLast(w, actions[..n], actions[n]);
      var last := Run(w, actions[..n]);
      assert !last.store.attached ==> last.flight.Idle?;
      StepAttaches(last, actions[n]);
    }
  }

  lemma StepHolds<K(!new), V(!new)>(w: World<K, V>, a: Action<K, V>, key: K)
    ensures Lookup(Step(w, a).store.entries, key) ==
      if a.Put? && a.key == key && !(w.store.keepExisting && key in w.store.entries) then Some(a.value)
      else if (a.Delete? && a.key == key) || (a.Prune? && a.drop(key)) then None
      else if a.Attach? && !w.store.attached && a.loads && key !in w.store.entries then Lookup(w.table, key)
      else Lookup(w.store.entries, key)
  {
  }

  /** In every interleaving with flushes, failures and the attach, a reader finds for each key what the writes have made of it. */
  lemma {:induction false} EntriesAreHeld<K(!new), V(!new)>(w: World<K, V>, actions: seq<Action<K, V>>, key: K)
    requires !w.store.attached ==> w.flight.Idle?
    ensures Lookup(Run(w, actions).store.entries, key) == Held(w, actions, key)
  {
    if actions != [] {
      var n := |actions| - 1;
      EntriesAreHeld(w, actions[..n], key);
      UntilAttached(w, actions[..n]);
      assert actions == actions[..n] + [actions[n]];
      RunOfLast(w, actions[..n], actions[n]);
      StepHolds(Run(w, actions[..n]), actions[n], key);
    }
  }

  ghost predicate Takes<K(!new), V(!new)>(a: Action<K, V>, key: K)
  {
    (a.Put? && a.key == key) || (a.Delete? && a.key == key) || (a.Prune? && a.drop(key))
  }

  lemma {:induction false} HeldSince<K(!new), V(!new)>(w: World<K, V>, before: seq<Action<K, V>>, after: seq<Action<K, V>>, key: K)
    requires Held(w, before, key).Some? && forall i :: 0 <= i < |after| ==> !Takes(after[i], key)
    ensures Held(w, before + after, key) == Held(w, before, key)
    decreases |after|
  {
    if after == [] {
      assert before + after == before;
    } else {
      var n := |after| - 1;
      assert (before + after)[..|before + after| - 1] == before + after[..n];
      HeldSince(w, before, after[..n], key);
    }
  }

  /** Without keep-existing a key holds the value of its last put until a delete or a matching prune. */
  lemma LastPutIsHeld<K(!new), V(!new)>(w: World<K, V>, before: seq<Action<K, V>>, key: K, value: V, after: seq<Action<K, V>>)
    requires !w.store.attached ==> w.flight.Idle?
    requires !w.store.keepExisting && forall i :: 0 <= i < |after| ==> !Takes(after[i], key)
    ensures var entries := Run(w, before + [Put(key, value)] + after).store.entries; key in entries && entries[key] == value
  {
    var put := before + [Put(key, value)];
    assert put[..|before|] == before;
    assert Held(w, put, key) == Some(value);
    HeldSince(w, put, after, key);
    EntriesAreHeld(w, put + after, key);
  }

  // ----- SetPersistence in its two locked sections, with writers in between -----

  /** The state between the two sections: everything in memory is dirty, the rows read by Load are those of the table. */
  ghost predicate Attaching<K(!new), V(!new)>(w: World<K, V>)
  {
    && PendingOk(w.store) && w.store.attached && w.flight.Idle? && w.stale == map[]
    && w.store.dirty == w.store.entries.Keys
  }

  lemma {:induction false} WritersWhileAttaching<K(!new), V(!new)>(w: World<K, V>, actions: seq<Action<K, V>>)
    requires Attaching(w)
    requires forall a :: a in actions ==> a.Put? || a.Delete? || a.Prune?
    ensures Attaching(Run(w, actions)) && Run(w, actions).table == w.table
    decreases |actions|
  {
    if actions != [] {
      assert actions[0] in actions;
      WritersWhileAttaching(Step(w, actions[0]), actions[1..]);
    }
  }

  /**
   The rehydration is sound exactly when no writer deleted a loaded key while Load was running: such a delete is
   undone in memory although it stays marked for the table.
   */
  lemma AttachEndExact<K(!new), V(!new)>(w: World<K, V>)
    requires Attaching(w)
    ensures Inv(w.(store := AfterAttachEnd(w.store, w.table))) <==> w.store.deleted !! w.table.Keys
  {
    var w' := w.(store := AfterAttachEnd(w.store, w.table));
    if w.store.deleted !! w.table.Keys {
      assert w'.store.entries.Keys == w.table.Keys + w.store.entries.Keys;
      assert forall k :: k !in w'.store.dirty && k !in w'.store.deleted ==> Agrees(w', k);
    } else {
      var k :| k in w.store.deleted && k in w.table;
      assert k in w'.store.entries;
    }
  }

  /** The keys that were in memory at some time of the run. */
  ghost function EverIn<K(!new), V(!new)>(w: World<K, V>, actions: seq<Action<K, V>>): set<K>
    decreases |actions|
  {
    w.store.entries.Keys + if actions == [] then {} else EverIn(Step(w, actions[0]), actions[1..])
  }

  lemma {:induction false} DeletedAreGone<K(!new), V(!new)>(w: World<K, V>, actions: seq<Action<K, V>>)
    requires Attaching(w) && forall a :: a in actions ==> a.Put? || a.Delete? || a.Prune?
    ensures Run(w, actions).store.deleted == w.store.deleted + EverIn(w, actions) - Run(w, actions).store.entries.Keys
    decreases |actions|
  {
    if actions != [] {
      assert actions[0] in actions;
      var next := Step(w, actions[0]);
      WritersWhileAttaching(w, [actions[0]]);
      assert Run(w, [actions[0]]) == next by {
        assert [actions[0]][1..] == [];
      }
      DeletedAreGone(next, actions[1..]);
      StepDeletes(w, actions[0]);
      assert next.store.entries.Keys <= EverIn(next, actions[1..]);
      EverInLast(next, actions[1..]);
    }
  }

  lemma StepDeletes<K(!new), V(!new)>(w: World<K, V>, a: Action<K, V>)
    requires Attaching(w) && (a.Put? || a.Delete? || a.Prune?)
    ensures Step(w, a).store.deleted == w.store.deleted + w.store.entries.Keys - Step(w, a).store.entries.Keys
  {
  }

  lemma {:induction false} EverInLast<K(!new), V(!new)>(w: World<K, V>, actions: seq<Action<K, V>>)
    ensures Run(w, actions).store.entries.Keys <= EverIn(w, actions)
    decreases |actions|
  {
    if actions != [] {
      EverInLast(Step(w, actions[0]), actions[1..]);
    }
  }

  /**
   SetPersistence over any run of writers between its two sections: sound exactly when every loaded key that was in
   memory at some time since the first section still is at the second.
   */
  lemma AttachAmongWriters<K(!new), V(!new)>(w: World<K, V>, actions: seq<Action<K, V>>)
    requires Inv(w) && !w.store.attached
    requires forall a :: a in actions ==> a.Put? || a.Delete? || a.Prune?
    ensures var begun := w.(store := AfterAttachBegin(w.store));
      var between := Run(begun, actions);
      Inv(between.(store := AfterAttachEnd(between.store, w.table))) <==>
        w.table.Keys * EverIn(begun, actions) <= between.store.entries.Keys
  {
    var begun := w.(store := AfterAttachBegin(w.store));
    WritersWhileAttaching(begun, actions);
    DeletedAreGone(begun, actions);
    AttachEndExact(Run(begun, actions));
  }

  /** The run in question: written before the attach, deleted during Load, back in memory, and gone from the table. */
  lemma DeleteDuringLoadIsUndone<K(!new), V(!new)>(w: World<K, V>, k: K, v: V)
    requires Initial(w) && !w.store.keepExisting && k in w.table
    ensures var begun := Step(w, Put(k, v)).(store := AfterAttachBegin(Step(w, Put(k, v)).store));
      var ended := Step(begun, Delete(k)).(store := AfterAttachEnd(Step(begun, Delete(k)).store, w.table));
      var flushed := Step(Step(ended, Take), Persist);
      && k in flushed.store.entries && flushed.store.entries[k] == w.table[k]
      && k !in flushed.table && NothingPending(flushed.store)
  {
  }

  // ----- one flush as the program runs it -----

  class Table<K(!new,==), V(!new)> {
    var rows: map<K, V>

    /** One transaction, which fails or not as the environment decides. */
    method PersistBatch(b: Batch<K, V>, fails: bool) returns (ok: bool)
      modifies this
      ensures ok == !fails
      ensures rows == if fails then old(rows) else Applied(old(rows), b)
    {
      if !fails {
        rows := (rows + b.upserts) - b.deletes;
      }
      return !fails;
    }
  }

  method Flush<K(!new,==), V(!new)>(s: MemStore<K, V>, t: Table<K, V>, ghost stale: map<K, V>, fails: bool) returns (ok: bool)
    requires Inv(World(s.View(), t.rows, Idle, stale))
    modifies s, t
    ensures Inv(World(s.View(), t.rows, Idle, stale))
    ensures s.entries == old(s.entries) && s.attached == old(s.attached)
    ensures ok <==> !fails || old(NothingPending(s.View()))
    ensures ok ==> NothingPending(s.View())
    ensures !ok ==> s.View() == old(s.View()) && t.rows == old(t.rows)
    ensures ok && s.attached && stale == map[] ==> t.rows == s.entries
  {
    ghost var w: World<K, V> := World(s.View(), t.rows, Idle, stale);
    OneFlush(w);
    var batch := s.TakeBatch();
    if batch.None? {
      return true;
    }
    ok := t.PersistBatch(batch.value, fails);
    if !ok {
      s.Requeue(batch.value);
    }
  }

  lemma OneFlush<K(!new), V(!new)>(w: World<K, V>)
    requires Inv(w) && w.flight.Idle?
    ensures NothingPending(w.store) && w.store.attached && w.stale == map[] ==> w.table == w.store.entries
    ensures !NothingPending(w.store) ==>
      var done := World(AfterTake(w.store), Applied(w.table, BatchOf(w.store)), Idle, w.stale);
      && Inv(done) && NothingPending(done.store)
      && (w.stale == map[] ==> done.table == w.store.entries)
      && AfterRequeue(AfterTake(w.store), BatchOf(w.store)) == w.store
  {
    if w.store.attached {
      FlushSettles(w);
      QuiescentFlush(w);
    }
  }
}
