/**
 The migration of won blocks into slot results (pkg/slot_results/migrate.go): two atomic batches, after either of
 which, or before, the process may stop; it then runs again at the next start.
 */
module Migration {
  import opened Arith
  import opened Common

  datatype WonBlock = WonBlock(source: nat, blockHash: nat, numTransactions: nat, numBlobs: nat, value: nat, timestamp: nat)

  datatype Inclusion = Inclusion(source: nat, blockHash: nat, numTransactions: nat, numBlobs: nat, value: nat, timestamp: nat)

  /** outcome stands for all other fields of a slot result. */
  datatype SlotResult = SlotResult(epoch: nat, inclusion: Option<Inclusion>, outcome: Option<nat>)

  /** A row of the key-value store; Load skips the rows that do not decode. */
  datatype Row<+T> = Good(value: T) | Corrupt

  datatype Data = Data(legacy: map<nat, Row<WonBlock>>, results: map<nat, Row<SlotResult>>)

  function Loaded<T>(rows: map<nat, Row<T>>): map<nat, T>
  {
    map s | s in rows && rows[s].Good? :: rows[s].value
  }

  function InclusionOf(won: WonBlock): Inclusion
  {
    Inclusion(won.source, won.blockHash, won.numTransactions, won.numBlobs, won.value, won.timestamp)
  }

  // ----- what a complete migration makes of the data -----

  /** The result row of a slot: a recorded inclusion stays, a missing one is filled in, and so is a missing result. */
  function MergedRow(data: Data, slot: nat, slotsPerEpoch: nat): Option<Row<SlotResult>>
    requires slotsPerEpoch > 0
  {
    var row := if slot in data.results then Some(data.results[slot]) else None;
    if slot !in data.legacy || data.legacy[slot].Corrupt? then row
    else
      var inclusion := InclusionOf(data.legacy[slot].value);
      if row.Some? && row.value.Good? then
        if row.value.value.inclusion.Some? then row
        else Some(Good(row.value.value.(inclusion := Some(inclusion))))
      else Some(Good(SlotResult(slot / slotsPerEpoch, Some(inclusion), None)))
  }

  ghost predicate IsMerged(data: Data, results: map<nat, Row<SlotResult>>, slotsPerEpoch: nat)
    requires slotsPerEpoch > 0
  {
    forall s :: MergedRow(data, s, slotsPerEpoch) == if s in results then Some(results[s]) else None
  }

  function Upserted(results: map<nat, Row<SlotResult>>, upserts: map<nat, SlotResult>, slot: nat): Option<Row<SlotResult>>
  {
    if slot in upserts then Some(Good(upserts[slot])) else if slot in results then Some(results[slot]) else None
  }

  /** Which steps of a run fail; a failing step ends the run, as a crash before it does. */
  datatype Faults = Faults(loadLegacy: bool, loadResults: bool, upserts: bool, deletes: bool)

  predicate Complete(faults: Faults)
  {
    faults == Faults(false, false, false, false)
  }

  /** What a run may leave behind. */
  ghost predicate RunLeaves(before: Data, after: Data, slotsPerEpoch: nat, faults: Faults)
    requires slotsPerEpoch > 0
  {
    && (after == before || IsMerged(before, after.results, slotsPerEpoch))
    && (after.legacy == before.legacy || (IsMerged(before, after.results, slotsPerEpoch) && OnlyCorrupt(before, after)))
    && (Complete(faults) ==> IsMerged(before, after.results, slotsPerEpoch) && OnlyCorrupt(before, after))
  }

  ghost predicate OnlyCorrupt(before: Data, after: Data)
  {
    after.legacy == map s | s in before.legacy && before.legacy[s].Corrupt? :: before.legacy[s]
  }

  class Database {
    var legacy: map<nat, Row<WonBlock>>
    var results: map<nat, Row<SlotResult>>

    function Contents(): Data
      reads this
    {
      Data(legacy, results)
    }

    method MigrateWonBlocks(slotsPerEpoch: nat, faults: Faults)
      modifies this
      ensures slotsPerEpoch == 0 ==> Contents() == old(Contents())
      ensures slotsPerEpoch > 0 ==> RunLeaves(old(Contents()), Contents(), slotsPerEpoch, faults)
    {
      if slotsPerEpoch == 0 || faults.loadLegacy {
        return;
      }
      ghost var before := Contents();
      var wonBlocks := Loaded(legacy);
      if wonBlocks == map[] {
        NothingToMerge(before, slotsPerEpoch);
        return;
      }
      if faults.loadResults {
        return;
      }
      var upserts := CollectUpserts(wonBlocks, slotsPerEpoch);
      if upserts != map[] {
        if faults.upserts {
          return;
        }
        UpsertAll(upserts);
      }
      forall s
        ensures MergedRow(before, s, slotsPerEpoch) == if s in results then Some(results[s]) else None
      {
        assert MergedRow(before, s, slotsPerEpoch) == Upserted(before.results, upserts, s);
      }
      if faults.deletes {
        return;
      }
      legacy := legacy - wonBlocks.Keys;
    }

    /** The loop over the loaded won blocks. */
    method CollectUpserts(wonBlocks: map<nat, WonBlock>, slotsPerEpoch: nat) returns (upserts: map<nat, SlotResult>)
      requires slotsPerEpoch > 0 && wonBlocks == Loaded(legacy)
      ensures forall s :: MergedRow(Contents(), s, slotsPerEpoch) == Upserted(results, upserts, s)
    {
      var existing := Loaded(results);
      upserts := map[];
      var rest := wonBlocks.Keys;
      while rest != {}
        invariant rest <= wonBlocks.Keys && upserts.Keys <= wonBlocks.Keys && upserts.Keys !! rest
        invariant forall s :: s in wonBlocks && s !in rest ==>
          MergedRow(Contents(), s, slotsPerEpoch) == Upserted(results, upserts, s)
        decreases |rest|
      {
        var slot :| slot in rest;
        rest := rest - {slot};
        var inclusion := InclusionOf(wonBlocks[slot]);
        if slot in existing {
          if existing[slot].inclusion.None? {
            upserts := upserts[slot := existing[slot].(inclusion := Some(inclusion))];
          }
        } else {
          upserts := upserts[slot := SlotResult(slot / slotsPerEpoch, Some(inclusion), None)];
        }
      }
    }

    /** The first batch. */
    method UpsertAll(upserts: map<nat, SlotResult>)
      modifies this`results
      ensures forall s :: (s in results <==> s in old(results) || s in upserts)
      ensures forall s :: s in results ==> results[s] == if s in upserts then Good(upserts[s]) else old(results)[s]
    {
      results := results + map s | s in upserts :: Good(upserts[s]);
    }
  }

  lemma NothingToMerge(data: Data, slotsPerEpoch: nat)
    requires slotsPerEpoch > 0 && Loaded(data.legacy) == map[]
    ensures IsMerged(data, data.results, slotsPerEpoch) && OnlyCorrupt(data, data)
  {
    forall s | s in data.legacy
      ensures data.legacy[s].Corrupt?
    {
      assert s in Loaded(data.legacy) <==> data.legacy[s].Good?;
    }
  }

  // ----- any number of runs -----

  /** The data before each run and after the last one. */
  ghost predicate IsHistory(history: seq<Data>, faults: seq<Faults>, slotsPerEpoch: nat)
    requires slotsPerEpoch > 0
  {
    && |history| == |faults| + 1
    && forall i :: 0 <= i < |faults| ==> RunLeaves(history[i], history[i + 1], slotsPerEpoch, faults[i])
  }

  /** Where the data can be at any time: as at first, merged, or merged and cleaned up. */
  ghost predicate Stage(first: Data, now: Data, slotsPerEpoch: nat)
    requires slotsPerEpoch > 0
  {
    && (now == first || IsMerged(first, now.results, slotsPerEpoch))
    && (now.legacy == first.legacy || (IsMerged(first, now.results, slotsPerEpoch) && OnlyCorrupt(first, now)))
  }

  lemma StageStep(first: Data, now: Data, next: Data, slotsPerEpoch: nat, faults: Faults)
    requires slotsPerEpoch > 0 && Stage(first, now, slotsPerEpoch) && RunLeaves(now, next, slotsPerEpoch, faults)
    ensures Stage(first, next, slotsPerEpoch)
    ensures Complete(faults) ==> IsMerged(first, next.results, slotsPerEpoch) && OnlyCorrupt(first, next)
  {
    if IsMerged(now, next.results, slotsPerEpoch) {
      MergeAgain(first, now, next, slotsPerEpoch);
    }
    CorruptAgain(first, now, next);
  }

  lemma CorruptAgain(first: Data, now: Data, next: Data)
    requires now.legacy == first.legacy || OnlyCorrupt(first, now)
    ensures OnlyCorrupt(now, next) ==> OnlyCorrupt(first, next)
  {
  }

  /** Merging what was merged changes nothing, with the legacy rows still there or not. */
  lemma MergeAgain(first: Data, now: Data, next: Data, slotsPerEpoch: nat)
    requires slotsPerEpoch > 0 && Stage(first, now, slotsPerEpoch) && IsMerged(now, next.results, slotsPerEpoch)
    ensures IsMerged(first, next.results, slotsPerEpoch)
  {
    forall s
      ensures MergedRow(first, s, slotsPerEpoch) == if s in next.results then Some(next.results[s]) else None
    {
      assert MergedRow(now, s, slotsPerEpoch) == if s in next.results then Some(next.results[s]) else None;
      if now != first {
        assert MergedRow(first, s, slotsPerEpoch) == if s in now.results then Some(now.results[s]) else None;
      }
    }
  }

  lemma {:induction false} EveryStage(history: seq<Data>, faults: seq<Faults>, slotsPerEpoch: nat, n: nat)
    requires slotsPerEpoch > 0 && IsHistory(history, faults, slotsPerEpoch) && n < |history|
    ensures Stage(history[0], history[n], slotsPerEpoch)
  {
    if n > 0 {
      EveryStage(history, faults, slotsPerEpoch, n - 1);
      StageStep(history[0], history[n - 1], history[n], slotsPerEpoch, faults[n - 1]);
    }
  }

  ghost predicate HasResult(data: Data, slot: nat)
  {
    slot in data.results && data.results[slot].Good?
  }

  ghost predicate HasInclusion(data: Data, slot: nat)
  {
    HasResult(data, slot) && data.results[slot].value.inclusion.Some?
  }

  /** Field by field what the won block said. */
  ghost predicate Tells(i: Inclusion, won: WonBlock)
  {
    && i.source == won.source && i.blockHash == won.blockHash && i.numTransactions == won.numTransactions
    && i.numBlobs == won.numBlobs && i.value == won.value && i.timestamp == won.timestamp
  }

  /**
   After any number of runs, crashed at any point, and one complete run: the legacy rows that decode are gone, their
   slots have an inclusion, and nothing that a result already held is overwritten.
   */
  lemma MigrationCompletes(history: seq<Data>, faults: seq<Faults>, slotsPerEpoch: nat, slot: nat)
    requires slotsPerEpoch > 0 && IsHistory(history, faults, slotsPerEpoch)
    requires faults != [] && Complete(faults[|faults| - 1])
    ensures var first, last := history[0], history[|faults|];
      && (slot in last.legacy ==> slot in first.legacy && first.legacy[slot].Corrupt? && last.legacy[slot].Corrupt?)
      && (slot in first.legacy && first.legacy[slot].Good? ==>
            slot in last.results && last.results[slot].Good? && last.results[slot].value.inclusion.Some?)
      && (slot in first.results && first.results[slot].Good? ==>
            && slot in last.results && last.results[slot].Good?
            && last.results[slot].value.outcome == first.results[slot].value.outcome
            && last.results[slot].value.epoch == first.results[slot].value.epoch
            && (first.results[slot].value.inclusion.Some? ==> last.results[slot] == first.results[slot]))
      && (slot in first.legacy && first.legacy[slot].Good? && !HasInclusion(first, slot) ==>
            Tells(last.results[slot].value.inclusion.value, first.legacy[slot].value))
      && (slot in first.legacy && first.legacy[slot].Good? && !HasResult(first, slot) ==>
            var r := last.results[slot].value;
            r.epoch * slotsPerEpoch <= slot < (r.epoch + 1) * slotsPerEpoch && r.outcome == None)
      && (slot !in first.legacy ==>
            (slot in last.results <==> slot in first.results)
            && (slot in first.results ==> last.results[slot] == first.results[slot]))
  {
    var n := |faults| - 1;
    EveryStage(history, faults, slotsPerEpoch, n);
    StageStep(history[0], history[n], history[n + 1], slotsPerEpoch, faults[n]);
    QuotientBounds(slot, slotsPerEpoch);
    assert MergedRow(history[0], slot, slotsPerEpoch) ==
      if slot in history[n + 1].results then Some(history[n + 1].results[slot]) else None;
  }

  /** The one thing that is lost: a result row that does not decode is replaced when the slot has a won block. */
  lemma CorruptResultIsReplaced(data: Data, slot: nat, slotsPerEpoch: nat)
    requires slotsPerEpoch > 0 && slot in data.results && data.results[slot].Corrupt?
    ensures MergedRow(data, slot, slotsPerEpoch) != Some(data.results[slot]) <==>
      slot in data.legacy && data.legacy[slot].Good?
  {
  }
}
