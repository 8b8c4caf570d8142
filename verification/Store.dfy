/**
 The write-behind store of pkg/memstore/store.go. `State` is what the store's
 lock protects; every critical section is one function on it. `World` adds the
 backing table and the batch that is on its way to it, and a run is any
 interleaving of critical sections and persistence outcomes.
 */
module Store {
  import opened Common

  // ----- the critical sections -----

  datatype State<K(!new,==), V(!new)> = State(
    entries: map<K, V>,
    keepExisting: bool,
    attached: bool,
    dirty: set<K>,
    deleted: set<K>)

  datatype Batch<K(!new,==), V(!new)> = Batch(upserts: map<K, V>, deletes: set<K>, dirtySnap: set<K>)

  function MarkDirty<K(!new,==), V(!new)>(s: State<K, V>, key: K): State<K, V>
  {
    if s.attached then s.(dirty := s.dirty + {key}, deleted := s.deleted - {key}) else s
  }

  function AfterPut<K(!new,==), V(!new)>(s: State<K, V>, key: K, value: V): State<K, V>
  {
    if s.keepExisting && key in s.entries then s
    else MarkDirty(s.(entries := s.entries[key := value]), key)
  }

  /** Removes these keys and marks the deletions. */
  function AfterRemove<K(!new,==), V(!new)>(s: State<K, V>, keys: set<K>): State<K, V>
  {
    var t := s.(entries := s.entries - keys);
    if s.attached then t.(dirty := t.dirty - keys, deleted := t.deleted + keys) else t
  }

  function AfterDelete<K(!new,==), V(!new)>(s: State<K, V>, key: K): State<K, V>
  {
    if key in s.entries then AfterRemove(s, {key}) else s
  }

  function AfterPrune<K(!new,==), V(!new)>(s: State<K, V>, drop: K -> bool): State<K, V>
  {
    AfterRemove(s, set k | k in s.entries && drop(k))
  }

  lemma RemoveNothing<K(!new), V(!new)>(s: State<K, V>)
    ensures AfterRemove(s, {}) == s
  {
    assert s.entries - {} == s.entries;
  }

  lemma RemoveOneMore<K(!new), V(!new)>(s: State<K, V>, keys: set<K>, key: K)
    ensures AfterRemove(AfterRemove(s, keys), {key}) == AfterRemove(s, keys + {key})
  {
    assert s.entries - keys - {key} == s.entries - (keys + {key});
    assert s.dirty - keys - {key} == s.dirty - (keys + {key});
    assert s.deleted + keys + {key} == s.deleted + (keys + {key});
  }

  lemma ClearedIsPruned<K(!new), V(!new)>(s: State<K, V>)
    ensures AfterPrune(s, k => true) == AfterRemove(s, s.entries.Keys)
    ensures AfterRemove(s, s.entries.Keys).entries == map[]
  {
    assert (set k | k in s.entries) == s.entries.Keys;
    assert s.entries - s.entries.Keys == map[];
  }

  predicate NothingPending<K(!new,==), V(!new)>(s: State<K, V>)
  {
    !s.attached || (s.dirty == {} && s.deleted == {})
  }

  /** What Flush hands to the table when it swaps out the pending sets. */
  function BatchOf<K(!new,==), V(!new)>(s: State<K, V>): Batch<K, V>
  {
    Batch(map k | k in s.dirty && k in s.entries :: s.entries[k], s.deleted, s.dirty)
  }

  function AfterTake<K(!new,==), V(!new)>(s: State<K, V>): State<K, V>
  {
    s.(dirty := {}, deleted := {})
  }

  function AfterRequeue<K(!new,==), V(!new)>(s: State<K, V>, b: Batch<K, V>): State<K, V>
  {
    var dirty := s.dirty + (b.dirtySnap - s.deleted);
    s.(dirty := dirty, deleted := s.deleted + (b.deletes - dirty))
  }

  /** First section of SetPersistence: what was written before is unknown to the table. */
  function AfterAttachBegin<K(!new,==), V(!new)>(s: State<K, V>): State<K, V>
  {
    s.(attached := true, dirty := s.dirty + s.entries.Keys)
  }

  /** Second section: loaded rows never overwrite entries in memory. */
  function AfterAttachEnd<K(!new,==), V(!new)>(s: State<K, V>, loaded: map<K, V>): State<K, V>
  {
    s.(entries := loaded + s.entries)
  }

  // ----- the class -----

  class MemStore<K(!new,==), V(!new)> {
    var entries: map<K, V>
    var keepExisting: bool
    var attached: bool
    var dirty: set<K>
    var deleted: set<K>

    function View(): State<K, V>
      reads this
    {
      State(entries, keepExisting, attached, dirty, deleted)
    }

    constructor (keepExisting: bool)
      ensures View() == State(map[], keepExisting, false, {}, {})
    {
      entries, this.keepExisting, attached, dirty, deleted := map[], keepExisting, false, {}, {};
    }

    method Put(key: K, value: V) returns (stored: bool)
      modifies this
      ensures View() == AfterPut(old(View()), key, value)
      ensures !stored <==> old(keepExisting && key in entries)
      ensures stored ==> key in entries && entries[key] == value
      ensures stored ==> forall k :: k != key ==>
        (k in entries <==> k in old(entries)) && (k in entries ==> entries[k] == old(entries)[k])
      ensures !stored ==> View() == old(View())
    {
      if keepExisting {
        if key in entries {
          return false;
        }
      }
      entries := entries[key := value];
      MarkDirtyLocked(key);
      return true;
    }

    method MarkDirtyLocked(key: K)
      modifies this
      ensures View() == MarkDirty(old(View()), key)
    {
      if attached {
        deleted := deleted - {key};
        dirty := dirty + {key};
      }
    }

    method MarkDeletedLocked(key: K)
      modifies this
      ensures View() == old(if attached then View().(dirty := dirty - {key}, deleted := deleted + {key}) else View())
    {
      if attached {
        dirty := dirty - {key};
        deleted := deleted + {key};
      }
    }

    method Get(key: K) returns (value: Option<V>)
      ensures value == if key in entries then Some(entries[key]) else None
    {
      value := if key in entries then Some(entries[key]) else None;
    }

    method Delete(key: K)
      modifies this
      ensures View() == AfterDelete(old(View()), key)
      ensures entries == old(entries) - {key}
    {
      if key !in entries {
        return;
      }
      entries := entries - {key};
      MarkDeletedLocked(key);
    }

    method Prune(drop: K -> bool) returns (pruned: nat)
      modifies this
      ensures View() == AfterPrune(old(View()), drop)
      ensures entries == map k | k in old(entries) && !drop(k) :: old(entries)[k]
      ensures pruned == old(|set k | k in entries && drop(k)|)
    {
      pruned := 0;
      var rest := entries.Keys;
      ghost var gone: set<K> := {};
      ghost var before := View();
      RemoveNothing(before);
      while rest != {}
        invariant rest <= before.entries.Keys && gone <= before.entries.Keys && gone !! rest
        invariant forall k :: k in before.entries && k !in rest ==> (k in gone <==> drop(k))
        invariant View() == AfterRemove(before, gone)
        invariant pruned == |gone|
        decreases |rest|
      {
        var key :| key in rest;
        rest := rest - {key};
        if drop(key) {
          RemoveEntry(key, before, gone);
          pruned := pruned + 1;
          gone := gone + {key};
        }
      }
      assert gone == set k | k in before.entries && drop(k);
    }

    method RemoveEntry(key: K, ghost before: State<K, V>, ghost gone: set<K>)
      requires key in before.entries && key !in gone && View() == AfterRemove(before, gone)
      modifies this
      ensures View() == AfterRemove(before, gone + {key})
    {
      RemoveOneMore(before, gone, key);
      entries := entries - {key};
      MarkDeletedLocked(key);
    }

    method Clear()
      modifies this
      ensures View() == AfterPrune(old(View()), k => true)
      ensures entries == map[]
    {
      var rest := entries.Keys;
      ghost var before := View();
      while rest != {}
        invariant rest <= before.entries.Keys
        invariant View() == before.(dirty := dirty, deleted := deleted)
        invariant !attached ==> dirty == before.dirty && deleted == before.deleted
        invariant attached ==> forall k :: k in dirty <==> k in before.dirty && (k in rest || k !in before.entries)
        invariant attached ==> forall k :: k in deleted <==> k in before.deleted || (k in before.entries && k !in rest)
        decreases |rest|
      {
        var key :| key in rest;
        rest := rest - {key};
        MarkDeletedLocked(key);
      }
      entries := map[];
      ClearedIsPruned(before);
      assert attached ==> dirty == before.dirty - before.entries.Keys;
      assert attached ==> deleted == before.deleted + before.entries.Keys;
    }

    /** Flush up to the point where the batch leaves the lock; None when there is nothing to do. */
    method TakeBatch() returns (batch: Option<Batch<K, V>>)
      modifies this
      ensures batch == if old(NothingPending(View())) then None else Some(old(BatchOf(View())))
      ensures View() == if old(NothingPending(View())) then old(View()) else old(AfterTake(View()))
    {
      if !attached || (dirty == {} && deleted == {}) {
        return None;
      }
      var upserts: map<K, V> := map[];
      var rest := dirty;
      while rest != {}
        invariant rest <= dirty
        invariant View() == old(View())
        invariant upserts.Keys == (dirty - rest) * entries.Keys
        invariant forall k :: k in upserts ==> upserts[k] == entries[k]
        decreases |rest|
      {
        var key :| key in rest;
        rest := rest - {key};
        if key in entries {
          upserts := upserts[key := entries[key]];
        }
      }
      assert upserts == BatchOf(old(View())).upserts;
      batch := Some(Batch(upserts, deleted, dirty));
      dirty, deleted := {}, {};
    }

    method Requeue(batch: Batch<K, V>)
      modifies this
      ensures View() == AfterRequeue(old(View()), batch)
    {
      RequeueDirty(batch.dirtySnap);
      RequeueDeleted(batch.deletes);
    }

    method RequeueDirty(snap: set<K>)
      modifies this
      ensures View() == old(View()).(dirty := old(dirty) + (snap - old(deleted)))
    {
      var rest := snap;
      while rest != {}
        invariant rest <= snap
        invariant forall k :: k in dirty <==> k in old(dirty) || (k in snap && k !in rest && k !in deleted)
        invariant View() == old(View()).(dirty := dirty)
        decreases |rest|
      {
        var key :| key in rest;
        rest := rest - {key};
        if key !in deleted {
          dirty := dirty + {key};
        }
      }
      assert dirty == old(dirty) + (snap - deleted);
    }

    method RequeueDeleted(snap: set<K>)
      modifies this
      ensures View() == old(View()).(deleted := old(deleted) + (snap - old(dirty)))
    {
      var rest := snap;
      while rest != {}
        invariant rest <= snap
        invariant forall k :: k in deleted <==> k in old(deleted) || (k in snap && k !in rest && k !in dirty)
        invariant View() == old(View()).(deleted := deleted)
        decreases |rest|
      {
        var key :| key in rest;
        rest := rest - {key};
        if key !in dirty {
          deleted := deleted + {key};
        }
      }
      assert deleted == old(deleted) + (snap - dirty);
    }

    method AttachBegin() returns (first: bool)
      modifies this
      ensures first == !old(attached)
      ensures View() == if first then AfterAttachBegin(old(View())) else old(View())
    {
      if attached {
        return false;
      }
      attached := true;
      MarkAllDirty();
      return true;
    }

    method MarkAllDirty()
      modifies this`dirty
      ensures dirty == old(dirty) + entries.Keys
    {
      ghost var before := dirty;
      var rest := entries.Keys;
      while rest != {}
        invariant dirty + rest == before + entries.Keys
        decreases |rest|
      {
        var key :| key in rest;
        rest := rest - {key};
        dirty := dirty + {key};
      }
    }

    method AttachEnd(loaded: map<K, V>)
      modifies this
      ensures View() == AfterAttachEnd(old(View()), loaded)
    {
      Rehydrate(loaded);
    }

    method Rehydrate(loaded: map<K, V>)
      modifies this`entries
      ensures entries == loaded + old(entries)
    {
      ghost var before := entries;
      var rest := loaded.Keys;
      RehydratedEnds(before, loaded);
      while rest != {}
        invariant rest <= loaded.Keys && entries == Rehydrated(before, loaded, rest)
        decreases |rest|
      {
        var key :| key in rest;
        RehydratedOneMore(before, loaded, rest, key);
        rest := rest - {key};
        if key !in entries {
          entries := entries[key := loaded[key]];
        }
      }
    }
  }

  /** The loaded rows outside rest are added, without overwriting. */
  ghost function Rehydrated<K(!new), V(!new)>(entries: map<K, V>, loaded: map<K, V>, rest: set<K>): map<K, V>
  {
    map k | k in entries.Keys + loaded.Keys && (k in entries || k !in rest) :: if k in entries then entries[k] else loaded[k]
  }

  lemma RehydratedEnds<K(!new), V(!new)>(entries: map<K, V>, loaded: map<K, V>)
    ensures Rehydrated(entries, loaded, loaded.Keys) == entries && Rehydrated(entries, loaded, {}) == loaded + entries
  {
    assert (loaded + entries).Keys == entries.Keys + loaded.Keys;
  }

  lemma RehydratedOneMore<K(!new), V(!new)>(entries: map<K, V>, loaded: map<K, V>, rest: set<K>, key: K)
    requires key in rest && key in loaded
    ensures Rehydrated(entries, loaded, rest - {key}) ==
      if key in Rehydrated(entries, loaded, rest) then Rehydrated(entries, loaded, rest)
      else Rehydrated(entries, loaded, rest)[key := loaded[key]]
  {
  }
}
