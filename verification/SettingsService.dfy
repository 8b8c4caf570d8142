/** The settings service (pkg/config/settings.go): NewService and SetMany over the rows of the state database. */
module SettingsService {
  import opened Common
  import opened Settings

  ghost function LayersOf(fields: seq<Key>, rows: Rows): Rows
  {
    map k | k in fields :: RowOf(rows, k)
  }

  lemma {:induction false} HighWaterBounds(fields: seq<Key>, rows: Rows, k: Key)
    requires k in fields
    ensures SeqOf(RowOf(rows, k).cli) <= HighWater(fields, rows) && SeqOf(RowOf(rows, k).ui) <= HighWater(fields, rows)
  {
    var n := |fields| - 1;
    if k != fields[n] {
      InPrefix(fields, n, k);
      HighWaterBounds(fields[..n], rows, k);
    }
  }

  /** Stamps that are distinct and positive are also below the high-water mark. */
  lemma RestartStamps(fields: seq<Key>, rows: Rows, counter: nat)
    requires Stamped(LayersOf(fields, rows), counter)
    ensures Stamped(LayersOf(fields, rows), HighWater(fields, rows))
  {
    var states := LayersOf(fields, rows);
    forall k, l | LayerAt(states, k, l).Some?
      ensures LayerAt(states, k, l).value.seqNo <= HighWater(fields, rows)
    {
      HighWaterBounds(fields, rows, k);
    }
  }

  /** The service's layers when the first n fields are reconciled: the others have only their UI layer. */
  ghost function Reconciled(fields: seq<Key>, rows: Rows, n: nat): Rows
    requires n <= |fields|
  {
    map k | k in fields :: if k in fields[..n] then RowOf(rows, k) else KeyState(None, RowOf(rows, k).ui)
  }

  lemma ReconciledAll(fields: seq<Key>, rows: Rows)
    ensures Reconciled(fields, rows, |fields|) == LayersOf(fields, rows)
  {
    assert fields[..|fields|] == fields;
  }

  lemma ReconciledOneMore(fields: seq<Key>, rows: Rows, rows': Rows, n: nat)
    requires n < |fields| && Distinct(fields)
    requires forall j :: j != fields[n] ==> RowOf(rows', j) == RowOf(rows, j)
    ensures Reconciled(fields, rows, n)[fields[n]] == KeyState(None, RowOf(rows, fields[n]).ui)
    ensures Reconciled(fields, rows', n + 1) == Reconciled(fields, rows, n)[fields[n] := RowOf(rows', fields[n])]
  {
    assert fields[n] !in fields[..n];
    assert fields[..n + 1] == fields[..n] + [fields[n]];
  }

  lemma StartOneMore(before: seq<Write>, fields: seq<Key>, n: nat, supplied: set<Key>, operator: Config)
    requires n < |fields| && forall i :: 0 <= i < |fields| ==> fields[i] in operator
    ensures AfterStart(before, fields[..n + 1], supplied, operator) ==
      AfterStart(before, fields[..n], supplied, operator) +
      StartWrite(AfterStart(before, fields[..n], supplied, operator), fields[n], supplied, operator)
  {
    assert fields[..n + 1][..n] == fields[..n];
  }

  /** One write to one layer, with a fresh stamp. */
  lemma WriteStep(fields: seq<Key>, rows: Rows, h: seq<Write>, defaults: Config, w: Write, ks: KeyState, counter: nat)
    requires forall i :: 0 <= i < |fields| ==> fields[i] in defaults
    requires AllKeysOk(fields, LayersOf(fields, rows), h, defaults) && Stamped(LayersOf(fields, rows), counter)
    requires w.key in fields && !w.CliDrop?
    requires w.CliSet? ==> ks == RowOf(rows, w.key).(cli := Some(Layer(w.value, counter + 1)))
    requires w.UiSet? ==> ks == RowOf(rows, w.key).(ui := Some(Layer(w.value, counter + 1)))
    ensures AllKeysOk(fields, LayersOf(fields, rows[w.key := ks]), h + [w], defaults)
    ensures Stamped(LayersOf(fields, rows[w.key := ks]), counter + 1)
  {
    var states := LayersOf(fields, rows);
    assert states[w.key] == RowOf(rows, w.key);
    WriteKeepsKeys(fields, states, h, defaults, w, ks, counter);
    FreshStamp(states, counter, w.key, ks);
    assert LayersOf(fields, rows[w.key := ks]) == states[w.key := ks];
  }

  /** The keys of the updates that are not in rest, in some order. */
  ghost predicate Covers(order: seq<Key>, updates: Config, rest: set<Key>)
  {
    forall k :: k in order <==> k in updates && k !in rest
  }

  lemma SetOneMore(before: seq<Write>, order: seq<Key>, k: Key, updates: Config)
    requires (forall i :: 0 <= i < |order| ==> order[i] in updates) && k in updates
    ensures AfterSets(before, order + [k], updates) == AfterSets(before, order, updates) + [UiSet(k, updates[k])]
  {
    assert (order + [k])[..|order|] == order;
  }

  class Service {
    const fields: seq<Key>
    const defaults: Config
    var counter: nat
    var keyState: Rows
    var effective: Config
    var rows: Rows // the state database
    ghost var history: seq<Write>

    ghost predicate FieldsOk()
    {
      Distinct(fields) && forall i :: 0 <= i < |fields| ==> fields[i] in defaults
    }

    /** The rows stand for the history. */
    ghost predicate RowsOk()
      requires FieldsOk()
      reads this
    {
      && AllKeysOk(fields, LayersOf(fields, rows), history, defaults)
      && Stamped(LayersOf(fields, rows), counter)
    }

    /** The effective configuration is what the history says, and memory and database agree. */
    ghost predicate Valid()
      reads this
    {
      && FieldsOk() && RowsOk()
      && keyState == LayersOf(fields, rows)
      && forall k :: k in fields ==> k in effective && effective[k] == Effective(history, k, defaults[k])
    }

    constructor (fields: seq<Key>, operator: Config, defaults: Config, supplied: set<Key>, rows: Rows, ghost before: seq<Write>)
      requires Distinct(fields) && forall i :: 0 <= i < |fields| ==> fields[i] in defaults && fields[i] in operator
      requires Stored(fields, rows, before, defaults)
      ensures Valid() && this.fields == fields && this.defaults == defaults
      ensures history == AfterStart(before, fields, supplied, operator)
    {
      this.fields, this.defaults, this.rows := fields, defaults, rows;
      counter, keyState, effective, history := 0, map[], operator, before;
      new;
      LoadRows();
      assert LayersOf(fields, rows) == map k | k in fields :: RowOf(rows, k);
      ReconcileAll(supplied, operator);
      Recompute();
    }

    /** Pass 1: the UI layers and the high-water mark of the sequence numbers. */
    method LoadRows()
      requires counter == 0 && keyState == map[]
      modifies this`counter, this`keyState
      ensures counter == HighWater(fields, rows)
      ensures keyState == Reconciled(fields, rows, 0)
    {
      for i := 0 to |fields|
        invariant counter == HighWater(fields[..i], rows)
        invariant keyState.Keys == set k | k in fields[..i]
        invariant forall k :: k in fields[..i] ==> keyState[k] == KeyState(None, RowOf(rows, k).ui)
      {
        assert fields[..i + 1][..i] == fields[..i];
        var row := RowOf(rows, fields[i]);
        counter := Max(counter, Max(SeqOf(row.cli), SeqOf(row.ui)));
        keyState := keyState[fields[i] := KeyState(None, row.ui)];
      }
      assert fields[..|fields|] == fields;
    }

    /** Pass 2: the flags that the operator supplies now against those of the run before. */
    method ReconcileAll(supplied: set<Key>, operator: Config)
      requires FieldsOk() && RowsOk() && forall i :: 0 <= i < |fields| ==> fields[i] in operator
      requires keyState == Reconciled(fields, rows, 0)
      modifies this`counter, this`keyState, this`rows, this`history
      ensures RowsOk() && keyState == LayersOf(fields, rows)
      ensures history == AfterStart(old(history), fields, supplied, operator)
    {
      ghost var before := history;
      for i := 0 to |fields|
        invariant Reconciling(i, supplied, operator, before)
      {
        ReconcileNext(i, supplied, operator, before);
      }
      assert fields[..|fields|] == fields;
      ReconciledAll(fields, rows);
    }

    /** The first i fields are reconciled. */
    ghost predicate Reconciling(i: int, supplied: set<Key>, operator: Config, before: seq<Write>)
      requires FieldsOk()
      reads this
    {
      && 0 <= i <= |fields| && (forall j :: 0 <= j < |fields| ==> fields[j] in operator)
      && RowsOk() && keyState == Reconciled(fields, rows, i)
      && history == AfterStart(before, fields[..i], supplied, operator)
    }

    method ReconcileNext(i: nat, supplied: set<Key>, operator: Config, ghost before: seq<Write>)
      requires FieldsOk() && Reconciling(i, supplied, operator, before) && i < |fields|
      modifies this`counter, this`keyState, this`rows, this`history
      ensures Reconciling(i + 1, supplied, operator, before)
    {
      StartOneMore(before, fields, i, supplied, operator);
      ReconcileField(i, supplied, operator);
    }

    method ReconcileField(i: nat, supplied: set<Key>, operator: Config)
      requires FieldsOk() && RowsOk() && i < |fields| && fields[i] in operator && keyState == Reconciled(fields, rows, i)
      modifies this`counter, this`keyState, this`rows, this`history
      ensures RowsOk() && keyState == Reconciled(fields, rows, i + 1)
      ensures history == old(history) + StartWrite(old(history), fields[i], supplied, operator)
    {
      ghost var before := rows;
      ReconciledOneMore(fields, rows, rows, i);
      Reconcile(fields[i], fields[i] in supplied, operator[fields[i]], supplied, operator);
      ReconciledOneMore(fields, before, rows, i);
    }

    method Reconcile(k: Key, isSupplied: bool, suppliedVal: Value, ghost supplied: set<Key>, ghost operator: Config)
      requires FieldsOk() && RowsOk() && k in fields && k in keyState && keyState[k] == KeyState(None, RowOf(rows, k).ui)
      requires k in operator && operator[k] == suppliedVal && (isSupplied <==> k in supplied)
      modifies this`counter, this`keyState, this`rows, this`history
      ensures RowsOk() && keyState == old(keyState)[k := RowOf(rows, k)]
      ensures forall j :: j != k ==> RowOf(rows, j) == RowOf(old(rows), j)
      ensures history == old(history) + StartWrite(old(history), k, supplied, operator)
    {
      var row := RowOf(rows, k);
      assert LayersOf(fields, rows)[k] == row;
      assert KeyOk(row, history, k, defaults[k]);
      var ks := keyState[k];
      if isSupplied {
        if row.cli.None? || row.cli.value.value != suppliedVal {
          ks := ks.(cli := Some(Layer(suppliedVal, counter + 1)));
          WriteLayer(k, ks, CliSet(k, suppliedVal));
        } else {
          ks := ks.(cli := row.cli);
          assert history + [] == history;
        }
      } else if row.cli.Some? {
        DropLayer(k);
      } else {
        assert history + [] == history;
      }
      keyState := keyState[k := ks];
    }

    /** nextSeq and persist for a layer that is written. */
    method WriteLayer(k: Key, ks: KeyState, ghost w: Write)
      requires FieldsOk() && RowsOk() && k in fields && w.key == k && !w.CliDrop?
      requires w.CliSet? ==> ks == RowOf(rows, k).(cli := Some(Layer(w.value, counter + 1)))
      requires w.UiSet? ==> ks == RowOf(rows, k).(ui := Some(Layer(w.value, counter + 1)))
      modifies this`counter, this`rows, this`history
      ensures RowsOk() && rows == old(rows)[k := ks] && history == old(history) + [w]
    {
      WriteStep(fields, rows, history, defaults, w, ks, counter);
      counter := counter + 1;
      rows := rows[k := ks];
      history := history + [w];
    }

    method DropLayer(k: Key)
      requires FieldsOk() && RowsOk() && k in fields
      modifies this`rows, this`history
      ensures RowsOk() && history == old(history) + [CliDrop(k)]
      ensures rows == old(rows)[k := RowOf(old(rows), k).(cli := None)]
    {
      ghost var states := LayersOf(fields, rows);
      WriteKeepsKeys(fields, states, history, defaults, CliDrop(k), states[k].(cli := None), counter);
      DroppedStamp(states, counter, k);
      history := history + [CliDrop(k)];
      rows := rows[k := RowOf(rows, k).(cli := None)];
      assert LayersOf(fields, rows) == states[k := states[k].(cli := None)];
    }

    method Recompute()
      requires FieldsOk() && RowsOk() && keyState == LayersOf(fields, rows)
      modifies this`effective
      ensures Valid()
    {
      for i := 0 to |fields|
        invariant forall j :: 0 <= j < i ==>
          fields[j] in effective && effective[fields[j]] == Effective(history, fields[j], defaults[fields[j]])
      {
        assert KeyOk(keyState[fields[i]], history, fields[i], defaults[fields[i]]);
        effective := effective[fields[i] := Winner(keyState[fields[i]], defaults[fields[i]])];
      }
    }

    /** All updates must be known and decode to valid values (Some), else nothing changes. */
    method SetMany(updates: map<Key, Option<Value>>) returns (ok: bool, ghost order: seq<Key>, ghost values: Config)
      requires Valid()
      modifies this`counter, this`keyState, this`rows, this`history, this`effective
      ensures Valid()
      ensures ok <==> forall k :: k in updates ==> k in fields && updates[k].Some?
      ensures !ok ==> history == old(history) && effective == old(effective) && rows == old(rows)
      ensures ok ==>
        && values.Keys == updates.Keys && Distinct(order) && Covers(order, values, {})
        && (forall k :: k in updates ==> updates[k] == Some(values[k]))
        && history == AfterSets(old(history), order, values)
      ensures ok ==> forall k :: k in fields ==>
        k in old(effective) && effective[k] == if k in updates then updates[k].value else old(effective)[k]
    {
      order, values := [], map[];
      var decoded;
      ok, decoded := Decode(updates);
      if !ok {
        return;
      }
      values := decoded;
      order := ApplyAll(decoded);
      Recompute();
      forall k | k in fields
        ensures effective[k] == if k in updates then updates[k].value else old(effective)[k]
      {
        SetsDecide(old(history), order, values, k, defaults[k]);
      }
    }

    method Decode(updates: map<Key, Option<Value>>) returns (ok: bool, decoded: Config)
      ensures ok <==> forall k :: k in updates ==> k in fields && updates[k].Some?
      ensures ok ==> decoded.Keys == updates.Keys && forall k :: k in updates ==> updates[k] == Some(decoded[k])
    {
      decoded := map[];
      var rest := updates.Keys;
      while rest != {}
        invariant rest <= updates.Keys && decoded.Keys == updates.Keys - rest
        invariant forall k :: k in decoded ==> k in fields && updates[k] == Some(decoded[k])
        decreases |rest|
      {
        var k :| k in rest;
        if k !in fields || updates[k].None? {
          return false, decoded;
        }
        decoded := decoded[k := updates[k].value];
        rest := rest - {k};
      }
      return true, decoded;
    }

    method ApplyAll(decoded: Config) returns (ghost order: seq<Key>)
      requires FieldsOk() && RowsOk() && keyState == LayersOf(fields, rows) && forall k :: k in decoded ==> k in fields
      modifies this`counter, this`keyState, this`rows, this`history
      ensures RowsOk() && keyState == LayersOf(fields, rows)
      ensures Distinct(order) && Covers(order, decoded, {})
      ensures history == AfterSets(old(history), order, decoded)
    {
      ghost var before := history;
      order := [];
      var rest := decoded.Keys;
      while rest != {}
        invariant rest <= decoded.Keys && Distinct(order) && Covers(order, decoded, rest)
        invariant RowsOk() && keyState == LayersOf(fields, rows)
        invariant history == AfterSets(before, order, decoded)
        decreases |rest|
      {
        var k :| k in rest;
        rest := rest - {k};
        SetOneMore(before, order, k, decoded);
        ApplyOne(k, decoded[k]);
        order := order + [k];
      }
    }

    method ApplyOne(k: Key, v: Value)
      requires FieldsOk() && RowsOk() && keyState == LayersOf(fields, rows) && k in fields
      modifies this`counter, this`keyState, this`rows, this`history
      ensures RowsOk() && keyState == LayersOf(fields, rows) && history == old(history) + [UiSet(k, v)]
    {
      var ks := keyState[k].(ui := Some(Layer(v, counter + 1)));
      keyState := keyState[k := ks];
      WriteLayer(k, ks, UiSet(k, v));
    }

    /** The database is ready for the next start. */
    lemma ReadyForRestart()
      requires Valid()
      ensures Stored(fields, rows, history, defaults)
    {
      var states := LayersOf(fields, rows);
      assert states == map k | k in fields :: RowOf(rows, k);
      RestartStamps(fields, rows, counter);
      assert forall k :: k in fields ==> states[k] == RowOf(rows, k);
    }
  }

  /** Run after run: the same flags again give the same configuration, for every key. */
  method Restart(service: Service, operator: Config, supplied: set<Key>) returns (next: Service)
    requires service.Valid() && forall i :: 0 <= i < |service.fields| ==> service.fields[i] in operator
    ensures fresh(next) && next.Valid() && next.fields == service.fields && next.defaults == service.defaults
    ensures next.history == AfterStart(service.history, service.fields, supplied, operator)
    ensures next.history == service.history ==> forall k :: k in service.fields ==> next.effective[k] == service.effective[k]
  {
    service.ReadyForRestart();
    next := new Service(service.fields, operator, service.defaults, supplied, service.rows, service.history);
  }
}
