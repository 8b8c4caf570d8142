/**
 Runtime settings across restarts (pkg/config/settings.go). The specification is the history of writes; the service
 keeps two layers per key, stamped with sequence numbers, and a row of both in the database.
 */
module Settings {
  import opened Common

  datatype Value = Number(n: nat) | Flag(b: bool) | Text(s: string)

  type Key = nat // an index into the registered fields

  type Config = map<Key, Value>

  // ----- the history -----

  /** CliDrop: a restart without a flag that the run before had. */
  datatype Write = CliSet(key: Key, value: Value) | CliDrop(key: Key) | UiSet(key: Key, value: Value)

  ghost function LastCli(h: seq<Write>, k: Key): Option<Value>
  {
    if h == [] then None
    else match h[|h| - 1]
         case CliSet(key, v) => if key == k then Some(v) else LastCli(h[..|h| - 1], k)
         case CliDrop(key) => if key == k then None else LastCli(h[..|h| - 1], k)
         case UiSet(_, _) => LastCli(h[..|h| - 1], k)
  }

  ghost function LastUi(h: seq<Write>, k: Key): Option<Value>
  {
    if h == [] then None
    else if h[|h| - 1].UiSet? && h[|h| - 1].key == k then Some(h[|h| - 1].value)
    else LastUi(h[..|h| - 1], k)
  }

  /** The last write to the key wins; a dropped flag no longer counts as a write. */
  ghost function Effective(h: seq<Write>, k: Key, default: Value): Value
  {
    if h == [] then default
    else if h[|h| - 1].key != k then Effective(h[..|h| - 1], k, default)
    else match h[|h| - 1]
         case CliSet(_, v) => v
         case UiSet(_, v) => v
         case CliDrop(_) => if LastUi(h, k).Some? then LastUi(h, k).value else default
  }

  /** What a key has without its flag: the last setting from the UI, the default if there is none. */
  ghost function Fallback(h: seq<Write>, k: Key, default: Value): Value
  {
    if LastUi(h, k).Some? then LastUi(h, k).value else default
  }

  lemma OneMore(h: seq<Write>, w: Write, k: Key, default: Value)
    ensures LastCli(h + [w], k) ==
      if w.key != k || w.UiSet? then LastCli(h, k) else if w.CliSet? then Some(w.value) else None
    ensures LastUi(h + [w], k) == if w.key == k && w.UiSet? then Some(w.value) else LastUi(h, k)
    ensures Effective(h + [w], k, default) ==
      if w.key != k then Effective(h, k, default)
      else if !w.CliDrop? then w.value
      else if LastUi(h, k).Some? then LastUi(h, k).value else default
  {
    assert (h + [w])[..|h|] == h;
  }

  /** What a start with these flags adds for one key: a new or changed flag is a write, a missing one is a drop. */
  ghost function StartWrite(h: seq<Write>, k: Key, supplied: set<Key>, flags: Config): seq<Write>
    requires k in flags
  {
    if k in supplied then (if LastCli(h, k) == Some(flags[k]) then [] else [CliSet(k, flags[k])])
    else if LastCli(h, k).Some? then [CliDrop(k)]
    else []
  }

  lemma StartWriteEffect(h: seq<Write>, key: Key, supplied: set<Key>, flags: Config, k: Key, default: Value)
    requires key in flags
    ensures var h' := h + StartWrite(h, key, supplied, flags);
      && LastUi(h', k) == LastUi(h, k)
      && LastCli(h', k) == (if k != key then LastCli(h, k) else if k in supplied then Some(flags[k]) else None)
      && (k != key ==> Effective(h', k, default) == Effective(h, k, default))
      && (k == key && k in supplied ==>
            Effective(h', k, default) == if LastCli(h, k) == Some(flags[k]) then Effective(h, k, default) else flags[k])
      && (k == key && k !in supplied ==>
            Effective(h', k, default) == if LastCli(h, k).Some? then Fallback(h, k, default) else Effective(h, k, default))
  {
    assert h + [] == h;
    OneMore(h, CliSet(key, flags[key]), k, default);
    OneMore(h, CliDrop(key), k, default);
  }

  ghost function AfterStart(h: seq<Write>, fields: seq<Key>, supplied: set<Key>, flags: Config): seq<Write>
    requires forall i :: 0 <= i < |fields| ==> fields[i] in flags
  {
    if fields == [] then h
    else
      var before := AfterStart(h, fields[..|fields| - 1], supplied, flags);
      before + StartWrite(before, fields[|fields| - 1], supplied, flags)
  }

  ghost function AfterSets(h: seq<Write>, order: seq<Key>, updates: Config): seq<Write>
    requires forall i :: 0 <= i < |order| ==> order[i] in updates
  {
    if order == [] then h
    else AfterSets(h, order[..|order| - 1], updates) + [UiSet(order[|order| - 1], updates[order[|order| - 1]])]
  }

  lemma {:induction false} StartSetsFlags(h: seq<Write>, fields: seq<Key>, supplied: set<Key>, flags: Config, k: Key)
    requires forall i :: 0 <= i < |fields| ==> fields[i] in flags
    ensures LastUi(AfterStart(h, fields, supplied, flags), k) == LastUi(h, k)
    ensures k !in fields ==> LastCli(AfterStart(h, fields, supplied, flags), k) == LastCli(h, k)
    ensures k in fields ==>
      LastCli(AfterStart(h, fields, supplied, flags), k) == if k in supplied then Some(flags[k]) else None
  {
    if fields != [] {
      var n := |fields| - 1;
      InPrefix(fields, n, k);
      StartSetsFlags(h, fields[..n], supplied, flags, k);
      StartWriteEffect(AfterStart(h, fields[..n], supplied, flags), fields[n], supplied, flags, k, Flag(false));
    }
  }

  lemma InPrefix(s: seq<Key>, n: nat, k: Key)
    requires |s| == n + 1
    ensures k in s <==> k in s[..n] || k == s[n]
    ensures Distinct(s) ==> Distinct(s[..n]) && s[n] !in s[..n]
  {
  }

  lemma {:induction false} SetsKeepFlags(h: seq<Write>, order: seq<Key>, updates: Config, k: Key)
    requires forall i :: 0 <= i < |order| ==> order[i] in updates
    ensures LastCli(AfterSets(h, order, updates), k) == LastCli(h, k)
  {
    if order != [] {
      var n := |order| - 1;
      SetsKeepFlags(h, order[..n], updates, k);
      OneMore(AfterSets(h, order[..n], updates), UiSet(order[n], updates[order[n]]), k, Flag(false));
    }
  }

  /** Starting once more with the same flags, whatever was set in between, writes nothing. */
  lemma {:induction false} RestartWritesNothing(h: seq<Write>, fields: seq<Key>, supplied: set<Key>, flags: Config)
    requires forall i :: 0 <= i < |fields| ==> fields[i] in flags
    requires forall k :: k in fields ==> LastCli(h, k) == if k in supplied then Some(flags[k]) else None
    ensures AfterStart(h, fields, supplied, flags) == h
  {
    if fields != [] {
      assert fields[|fields| - 1] in fields;
      RestartWritesNothing(h, fields[..|fields| - 1], supplied, flags);
    }
  }

  lemma RestartReproduces(h: seq<Write>, fields: seq<Key>, supplied: set<Key>, flags: Config, order: seq<Key>, updates: Config)
    requires forall i :: 0 <= i < |fields| ==> fields[i] in flags
    requires forall i :: 0 <= i < |order| ==> order[i] in updates
    ensures var run := AfterSets(AfterStart(h, fields, supplied, flags), order, updates);
      AfterStart(run, fields, supplied, flags) == run
  {
    var started := AfterStart(h, fields, supplied, flags);
    forall k | k in fields
      ensures LastCli(AfterSets(started, order, updates), k) == if k in supplied then Some(flags[k]) else None
    {
      StartSetsFlags(h, fields, supplied, flags, k);
      SetsKeepFlags(started, order, updates, k);
    }
    RestartWritesNothing(AfterSets(started, order, updates), fields, supplied, flags);
  }

  /** A flag that did not change lets a newer setting from the UI stand; a changed one overrides it. */
  lemma StartDecides(h: seq<Write>, fields: seq<Key>, supplied: set<Key>, flags: Config, k: Key, default: Value)
    requires forall i :: 0 <= i < |fields| ==> fields[i] in flags
    requires Distinct(fields) && k in fields && k in supplied
    ensures Effective(AfterStart(h, fields, supplied, flags), k, default) ==
      if LastCli(h, k) == Some(flags[k]) then Effective(h, k, default) else flags[k]
  {
    StartEffect(h, fields, supplied, flags, k, default);
  }

  lemma {:induction false} StartEffect(h: seq<Write>, fields: seq<Key>, supplied: set<Key>, flags: Config, k: Key, default: Value)
    requires forall i :: 0 <= i < |fields| ==> fields[i] in flags
    requires Distinct(fields) && k in supplied
    ensures Effective(AfterStart(h, fields, supplied, flags), k, default) ==
      if k !in fields || LastCli(h, k) == Some(flags[k]) then Effective(h, k, default) else flags[k]
  {
    if fields != [] {
      var n := |fields| - 1;
      InPrefix(fields, n, k);
      StartEffect(h, fields[..n], supplied, flags, k, default);
      StartSetsFlags(h, fields[..n], supplied, flags, k);
      StartWriteEffect(AfterStart(h, fields[..n], supplied, flags), fields[n], supplied, flags, k, default);
      InPrefix(fields, n, k);
    }
  }

  /** A flag that is no longer given leaves the last setting from the UI, or the default. */
  lemma StartDrops(h: seq<Write>, fields: seq<Key>, supplied: set<Key>, flags: Config, k: Key, default: Value)
    requires forall i :: 0 <= i < |fields| ==> fields[i] in flags
    requires Distinct(fields) && k in fields && k !in supplied
    ensures Effective(AfterStart(h, fields, supplied, flags), k, default) ==
      if LastCli(h, k).Some? then Fallback(h, k, default) else Effective(h, k, default)
  {
    DropEffect(h, fields, supplied, flags, k, default);
  }

  lemma {:induction false} DropEffect(h: seq<Write>, fields: seq<Key>, supplied: set<Key>, flags: Config, k: Key, default: Value)
    requires forall i :: 0 <= i < |fields| ==> fields[i] in flags
    requires Distinct(fields) && k !in supplied
    ensures Effective(AfterStart(h, fields, supplied, flags), k, default) ==
      if k in fields && LastCli(h, k).Some? then Fallback(h, k, default) else Effective(h, k, default)
  {
    if fields != [] {
      var n := |fields| - 1;
      InPrefix(fields, n, k);
      DropEffect(h, fields[..n], supplied, flags, k, default);
      StartSetsFlags(h, fields[..n], supplied, flags, k);
      StartWriteEffect(AfterStart(h, fields[..n], supplied, flags), fields[n], supplied, flags, k, default);
    }
  }

  /** A setting from the UI wins at once, and the other keys stay as they are. */
  lemma {:induction false} SetsDecide(h: seq<Write>, order: seq<Key>, updates: Config, k: Key, default: Value)
    requires forall i :: 0 <= i < |order| ==> order[i] in updates
    ensures Effective(AfterSets(h, order, updates), k, default) == if k in order then updates[k] else Effective(h, k, default)
  {
    if order != [] {
      var n := |order| - 1;
      InPrefix(order, n, k);
      SetsDecide(h, order[..n], updates, k, default);
      OneMore(AfterSets(h, order[..n], updates), UiSet(order[n], updates[order[n]]), k, default);
    }
  }

  // ----- layers and rows -----

  datatype Layer = Layer(value: Value, seqNo: nat)

  datatype KeyState = KeyState(cli: Option<Layer>, ui: Option<Layer>)

  const NOTHING := KeyState(None, None)

  type Rows = map<Key, KeyState>

  function RowOf(rows: Rows, k: Key): KeyState
  {
    if k in rows then rows[k] else NOTHING
  }

  /** recompute, for one key: the layer with the highest sequence number, the default below both. */
  function Winner(ks: KeyState, default: Value): Value
  {
    var winSeq := if ks.cli.Some? && ks.cli.value.seqNo > 0 then ks.cli.value.seqNo else 0;
    if ks.ui.Some? && ks.ui.value.seqNo > winSeq then ks.ui.value.value
    else if winSeq > 0 then ks.cli.value.value
    else default
  }

  ghost predicate KeyOk(ks: KeyState, h: seq<Write>, k: Key, default: Value)
  {
    && LastCli(h, k) == (if ks.cli.Some? then Some(ks.cli.value.value) else None)
    && LastUi(h, k) == (if ks.ui.Some? then Some(ks.ui.value.value) else None)
    && Winner(ks, default) == Effective(h, k, default)
  }

  function LayerAt(states: Rows, k: Key, cli: bool): Option<Layer>
  {
    if k !in states then None else if cli then states[k].cli else states[k].ui
  }

  /** Sequence numbers are positive, at most the counter, and no two layers share one. */
  ghost predicate Stamped(states: Rows, counter: nat)
  {
    && (forall k, l :: LayerAt(states, k, l).Some? ==> 0 < LayerAt(states, k, l).value.seqNo <= counter)
    && (forall k, l, k', l' :: LayerAt(states, k, l).Some? && LayerAt(states, k', l').Some? && (k != k' || l != l') ==>
          LayerAt(states, k, l).value.seqNo != LayerAt(states, k', l').value.seqNo)
  }

  ghost predicate AllKeysOk(fields: seq<Key>, states: Rows, h: seq<Write>, defaults: Config)
    requires forall i :: 0 <= i < |fields| ==> fields[i] in defaults
  {
    && (forall k :: k in fields ==> k in states)
    && forall k {:trigger KeyOk(states[k], h, k, defaults[k])} :: k in fields ==> KeyOk(states[k], h, k, defaults[k])
  }

  /** What the database must hold for a run to continue the history h. */
  ghost predicate Stored(fields: seq<Key>, rows: Rows, h: seq<Write>, defaults: Config)
    requires forall i :: 0 <= i < |fields| ==> fields[i] in defaults
  {
    && (forall k {:trigger KeyOk(RowOf(rows, k), h, k, defaults[k])} :: k in fields ==> KeyOk(RowOf(rows, k), h, k, defaults[k]))
    && Stamped(map k | k in fields :: RowOf(rows, k), HighWater(fields, rows))
  }

  function Max(a: nat, b: nat): nat
  {
    if a > b then a else b
  }

  function SeqOf(layer: Option<Layer>): nat
  {
    if layer.Some? then layer.value.seqNo else 0
  }

  /** The highest sequence number in the rows of the fields. */
  function HighWater(fields: seq<Key>, rows: Rows): nat
  {
    if fields == [] then 0
    else
      var row := RowOf(rows, fields[|fields| - 1]);
      Max(HighWater(fields[..|fields| - 1], rows), Max(SeqOf(row.cli), SeqOf(row.ui)))
  }

  /** A write with a fresh stamp keeps the stamps apart, and so does dropping a layer. */
  lemma FreshStamp(states: Rows, counter: nat, k: Key, ks: KeyState)
    requires Stamped(states, counter) && k in states
    requires || (ks.ui == states[k].ui && ks.cli.Some? && ks.cli.value.seqNo == counter + 1)
             || (ks.cli == states[k].cli && ks.ui.Some? && ks.ui.value.seqNo == counter + 1)
    ensures Stamped(states[k := ks], counter + 1)
  {
    var states' := states[k := ks];
    assert forall j, l :: LayerAt(states', j, l) == LayerAt(states, j, l) || LayerAt(states', j, l).value.seqNo == counter + 1;
  }

  lemma DroppedStamp(states: Rows, counter: nat, k: Key)
    requires Stamped(states, counter) && k in states
    ensures Stamped(states[k := states[k].(cli := None)], counter)
  {
    var states' := states[k := states[k].(cli := None)];
    assert forall j, l :: LayerAt(states', j, l) == LayerAt(states, j, l) || LayerAt(states', j, l).None?;
  }

  ghost predicate Below(ks: KeyState, counter: nat)
  {
    (ks.cli.Some? ==> 0 < ks.cli.value.seqNo <= counter) && (ks.ui.Some? ==> 0 < ks.ui.value.seqNo <= counter)
  }

  lemma StampedIsBelow(states: Rows, counter: nat, k: Key)
    requires Stamped(states, counter) && k in states
    ensures Below(states[k], counter)
  {
    assert LayerAt(states, k, true) == states[k].cli && LayerAt(states, k, false) == states[k].ui;
  }

  lemma WriteKeepsKeys(fields: seq<Key>, states: Rows, h: seq<Write>, defaults: Config, w: Write, ks: KeyState, counter: nat)
    requires forall i :: 0 <= i < |fields| ==> fields[i] in defaults
    requires AllKeysOk(fields, states, h, defaults) && Stamped(states, counter) && w.key in fields
    requires match w
      case CliSet(k, v) => ks == states[k].(cli := Some(Layer(v, counter + 1)))
      case UiSet(k, v) => ks == states[k].(ui := Some(Layer(v, counter + 1)))
      case CliDrop(k) => ks == states[k].(cli := None)
    ensures AllKeysOk(fields, states[w.key := ks], h + [w], defaults)
  {
    var states' := states[w.key := ks];
    forall k | k in fields
      ensures k in states' && KeyOk(states'[k], h + [w], k, defaults[k])
    {
      OneMore(h, w, k, defaults[k]);
      assert KeyOk(states[k], h, k, defaults[k]);
      StampedIsBelow(states, counter, k);
    }
  }
}
