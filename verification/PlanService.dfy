/** The action-plan service (pkg/action_plan/service.go): bulk updates, freezing and pruning. */
module PlanService {
  import opened Common
  import opened PlanUpdate

  /** A stored plan with its slot and the actor of the last update. */
  datatype Plan = Plan(slot: nat, categories: Categories, updatedBy: nat)

  type Plans = map<nat, Plan>

  /** One slot of one update, as ApplyUpdates takes them one after the other. */
  datatype Op = Op(update: PlanUpdate, slot: nat)

  function Get(store: Plans, slot: nat): Option<Plan>
  {
    if slot in store then Some(store[slot]) else None
  }

  function CategoriesOf(plan: Option<Plan>): Option<Categories>
  {
    if plan.Some? then Some(plan.value.categories) else None
  }

  /** One update of one slot; None is an error of the update or an invalid result. */
  function ApplyTo(codec: Codec, actor: nat, existing: Option<Plan>, op: Op): Option<Option<Plan>>
  {
    var applied := Applied(codec, CategoriesOf(existing), op.update);
    if applied.None? then None
    else if applied.value.None? then Some(None)
    else if !codec.valid(applied.value.value) then None
    else Some(Some(Plan(op.slot, applied.value.value, actor)))
  }

  type Apply = (Option<Plan>, Op) -> Option<Option<Plan>>

  function Applying(codec: Codec, actor: nat): Apply
  {
    (existing, op) => ApplyTo(codec, actor, existing, op)
  }

  // ----- the specification: one slot at a time, one update at a time -----

  ghost function OpsOf(u: PlanUpdate): (ops: seq<Op>)
    ensures |ops| == |Named(u)| && forall i :: 0 <= i < |ops| ==> ops[i] == Op(u, Named(u)[i])
  {
    seq(|Named(u)|, i requires 0 <= i < |Named(u)| => Op(u, Named(u)[i]))
  }

  ghost function AllOps(updates: seq<PlanUpdate>): seq<Op>
  {
    if updates == [] then [] else AllOps(updates[..|updates| - 1]) + OpsOf(updates[|updates| - 1])
  }

  /** The plan of one slot after the updates that target it, in request order. */
  ghost function Fold(apply: Apply, ops: seq<Op>, slot: nat, start: Option<Plan>): Option<Option<Plan>>
  {
    if ops == [] then Some(start)
    else
      var before, last := Fold(apply, ops[..|ops| - 1], slot, start), ops[|ops| - 1];
      if before.None? || last.slot != slot then before else apply(before.value, last)
  }

  ghost function SlotsOf(ops: seq<Op>): set<nat>
  {
    if ops == [] then {} else SlotsOf(ops[..|ops| - 1]) + {ops[|ops| - 1].slot}
  }

  ghost predicate TargetsOk(u: PlanUpdate)
  {
    WellFormedTargets(u) && (|Named(u)| <= MAX_SLOTS_PER_UPDATE || Wraps(u))
  }

  datatype Situation = Situation(apply: Apply, store: Plans, locked: set<nat>, currentSlot: nat)

  ghost function FoldIn(at: Situation, ops: seq<Op>, slot: nat): Option<Option<Plan>>
  {
    Fold(at.apply, ops, slot, Get(at.store, slot))
  }

  /** Nothing past or frozen is targeted, not too many slots are, and every slot takes all its updates. */
  ghost predicate Acceptable(at: Situation, ops: seq<Op>)
  {
    && |SlotsOf(ops)| <= MAX_SLOTS_PER_UPDATE
    && (forall s :: s in SlotsOf(ops) ==> s > at.currentSlot && s !in at.locked)
    && (forall s :: FoldIn(at, ops, s).Some?)
  }

  lemma {:induction false} AcceptablePrefix(at: Situation, ops: seq<Op>, more: seq<Op>)
    requires Acceptable(at, ops + more)
    ensures Acceptable(at, ops)
    decreases |more|
  {
    if more == [] {
      assert ops + more == ops;
    } else {
      var n := |more| - 1;
      assert ops + more == (ops + more[..n]) + [more[n]];
      AcceptableButLast(at, ops + more[..n], more[n]);
      AcceptablePrefix(at, ops, more[..n]);
    }
  }

  lemma AcceptableButLast(at: Situation, ops: seq<Op>, op: Op)
    requires Acceptable(at, ops + [op])
    ensures Acceptable(at, ops)
  {
    OneMoreOp(at, ops, op);
    SubsetSize(SlotsOf(ops), SlotsOf(ops + [op]));
    forall s
      ensures FoldIn(at, ops, s).Some?
    {
      OneMoreFold(at, ops, op, s);
    }
  }

  lemma OneMoreOp(at: Situation, ops: seq<Op>, op: Op)
    ensures SlotsOf(ops + [op]) == SlotsOf(ops) + {op.slot}
  {
    assert (ops + [op])[..|ops|] == ops;
  }

  lemma OneMoreFold(at: Situation, ops: seq<Op>, op: Op, s: nat)
    ensures FoldIn(at, ops + [op], s) ==
      if FoldIn(at, ops, s).None? || op.slot != s then FoldIn(at, ops, s)
      else at.apply(FoldIn(at, ops, s).value, op)
  {
    assert (ops + [op])[..|ops|] == ops;
  }

  lemma {:induction false} UntouchedFold(at: Situation, ops: seq<Op>, s: nat)
    requires s !in SlotsOf(ops)
    ensures FoldIn(at, ops, s) == Some(Get(at.store, s))
  {
    if ops != [] {
      UntouchedFold(at, ops[..|ops| - 1], s);
    }
  }

  // ----- what is stored -----

  /** Under its own slot, and with instructions. */
  ghost predicate PlanOk(plan: Option<Plan>, slot: nat)
  {
    plan.Some? ==> plan.value.slot == slot && Normal(plan.value.categories)
  }

  ghost predicate StoreOk(store: Plans)
  {
    forall s {:trigger Get(store, s)} :: PlanOk(Get(store, s), s)
  }

  lemma FewerPlansOk(store: Plans, cutoff: nat)
    requires StoreOk(store)
    ensures StoreOk(map s | s in store && s >= cutoff :: store[s])
  {
    var store': Plans := map s | s in store && s >= cutoff :: store[s];
    forall s
      ensures PlanOk(Get(store', s), s)
    {
      assert PlanOk(Get(store, s), s);
    }
  }

  lemma {:induction false} FoldedOk(codec: Codec, actor: nat, ops: seq<Op>, slot: nat, start: Option<Plan>)
    requires PlanOk(start, slot) && Fold(Applying(codec, actor), ops, slot, start).Some?
    ensures PlanOk(Fold(Applying(codec, actor), ops, slot, start).value, slot)
  {
    if ops != [] {
      var before, last := ops[..|ops| - 1], ops[|ops| - 1];
      FoldedOk(codec, actor, before, slot, start);
      var existing := Fold(Applying(codec, actor), before, slot, start).value;
      if last.slot == slot && Applied(codec, CategoriesOf(existing), last.update).value.Some? {
        UpdatedIsNormal(codec, CategoriesOf(existing), last.update);
      }
    }
  }

  /** The update leaves category c of its slots alone. */
  predicate Leaves(u: PlanUpdate, c: Category)
  {
    !u.delete && PatchOf(u, c) == Absent && PathsOf(c, u.paths) == []
  }

  /** Through a whole request, a category that no update of the slot mentions stays as it was stored. */
  lemma {:induction false} CategoryKept(codec: Codec, actor: nat, ops: seq<Op>, slot: nat, start: Option<Plan>, c: Category)
    requires PlanOk(start, slot) && Fold(Applying(codec, actor), ops, slot, start).Some?
    requires forall i :: 0 <= i < |ops| && ops[i].slot == slot ==> Leaves(ops[i].update, c)
    ensures StoredObject(CategoriesOf(Fold(Applying(codec, actor), ops, slot, start).value), c) == StoredObject(CategoriesOf(start), c)
  {
    if ops != [] {
      var before, last := ops[..|ops| - 1], ops[|ops| - 1];
      CategoryKept(codec, actor, before, slot, start, c);
      FoldedOk(codec, actor, before, slot, start);
      if last.slot == slot {
        var existing := Fold(Applying(codec, actor), before, slot, start).value;
        assert Leaves(last.update, c);
        UntouchedCategory(codec, CategoriesOf(existing), last.update, c);
      }
    }
  }

  // ----- staging -----

  type Staged = map<nat, Option<Plan>>

  ghost predicate StagedOk(at: Situation, ops: seq<Op>, staged: Staged)
  {
    && Acceptable(at, ops) && staged.Keys == SlotsOf(ops)
    && forall s :: s in staged ==> FoldIn(at, ops, s) == Some(staged[s])
  }

  /** What staging one more slot amounts to: the stored plan is looked at only when the slot is not staged yet. */
  method StageOne(at: Situation, ghost ops: seq<Op>, op: Op, staged0: Staged) returns (ok: bool, staged: Staged)
    requires StagedOk(at, ops, staged0)
    ensures ok <==> Acceptable(at, ops + [op])
    ensures ok ==> StagedOk(at, ops + [op], staged)
  {
    staged := staged0;
    OneMoreOp(at, ops, op);
    OneMoreFold(at, ops, op, op.slot);
    if op.slot <= at.currentSlot || op.slot in at.locked {
      return false, staged;
    }
    if |staged.Keys + {op.slot}| > MAX_SLOTS_PER_UPDATE {
      return false, staged;
    }
    UntouchedIfNew(at, ops, op.slot, staged);
    var existing := if op.slot in staged then staged[op.slot] else Get(at.store, op.slot);
    var result := at.apply(existing, op);
    if result.None? {
      return false, staged;
    }
    staged := staged[op.slot := result.value];
    forall s
      ensures FoldIn(at, ops + [op], s).Some?
      ensures s in staged ==> FoldIn(at, ops + [op], s) == Some(staged[s])
    {
      OneMoreFold(at, ops, op, s);
    }
    ok := true;
  }

  lemma UntouchedIfNew(at: Situation, ops: seq<Op>, slot: nat, staged: Staged)
    requires StagedOk(at, ops, staged)
    ensures FoldIn(at, ops, slot) == Some(if slot in staged then staged[slot] else Get(at.store, slot))
  {
    if slot !in staged {
      UntouchedFold(at, ops, slot);
    }
  }

  /** The loop over the targets of one update, the operations of which follow the first n of all. */
  method StageUpdate(at: Situation, u: PlanUpdate, targets: seq<nat>, staged0: Staged, ghost all: seq<Op>, ghost n: nat)
    returns (ok: bool, staged: Staged)
    requires n + |targets| == |all| && forall i :: 0 <= i < |targets| ==> all[n + i] == Op(u, targets[i])
    requires StagedOk(at, all[..n], staged0)
    ensures ok <==> Acceptable(at, all)
    ensures ok ==> StagedOk(at, all, staged)
  {
    staged := staged0;
    for i := 0 to |targets|
      invariant StagedOk(at, all[..n + i], staged)
    {
      ghost var before, op := all[..n + i], all[n + i];
      assert op == Op(u, targets[i]);
      assert all[..n + (i + 1)] == before + [op];
      ok, staged := StageOne(at, before, Op(u, targets[i]), staged);
      if !ok {
        NotAcceptable(at, all, n + i + 1);
        return;
      }
    }
    assert all[..|all|] == all;
    ok := true;
  }

  lemma NotAcceptable(at: Situation, ops: seq<Op>, n: nat)
    requires n <= |ops| && !Acceptable(at, ops[..n])
    ensures !Acceptable(at, ops)
  {
    assert ops == ops[..n] + ops[n..];
    if Acceptable(at, ops) {
      AcceptablePrefix(at, ops[..n], ops[n..]);
    }
  }

  ghost predicate AllTargetsOk(updates: seq<PlanUpdate>)
  {
    forall i {:trigger TargetsOk(updates[i])} :: 0 <= i < |updates| ==> TargetsOk(updates[i])
  }

  /** The operations of one update of these targets come after the others. */
  ghost predicate Continues(before: seq<Op>, all: seq<Op>, u: PlanUpdate, targets: seq<nat>)
  {
    && |all| == |before| + |targets| && all[..|before|] == before
    && forall j :: 0 <= j < |targets| ==> all[|before| + j] == Op(u, targets[j])
  }

  method StageNext(at: Situation, updates: seq<PlanUpdate>, i: nat, staged0: Staged) returns (ok: bool, staged: Staged)
    requires i < |updates| && |updates[i].slots| < TWO_TO_64 / 2
    requires StagedOk(at, AllOps(updates[..i]), staged0)
    ensures ok <==> TargetsOk(updates[i]) && Acceptable(at, AllOps(updates[..i + 1]))
    ensures ok ==> StagedOk(at, AllOps(updates[..i + 1]), staged)
  {
    var targets := TargetSlots(updates[i]);
    if targets.None? {
      return false, staged0;
    }
    OneMoreUpdate(updates, i);
    ok, staged := StageTargets(at, updates[i], targets.value, staged0, AllOps(updates[..i]), AllOps(updates[..i + 1]));
  }

  method StageTargets(at: Situation, u: PlanUpdate, targets: seq<nat>, staged0: Staged, ghost before: seq<Op>, ghost all: seq<Op>)
    returns (ok: bool, staged: Staged)
    requires Continues(before, all, u, targets) && StagedOk(at, before, staged0)
    ensures ok <==> Acceptable(at, all)
    ensures ok ==> StagedOk(at, all, staged)
  {
    ok, staged := StageUpdate(at, u, targets, staged0, all, |before|);
  }

  method StageAll(at: Situation, updates: seq<PlanUpdate>) returns (ok: bool, staged: Staged)
    requires forall i :: 0 <= i < |updates| ==> |updates[i].slots| < TWO_TO_64 / 2
    ensures ok <==> Acceptable(at, AllOps(updates)) && AllTargetsOk(updates)
    ensures ok ==> StagedOk(at, AllOps(updates), staged)
  {
    staged := map[];
    for i := 0 to |updates|
      invariant StagedOk(at, AllOps(updates[..i]), staged) && AllTargetsOk(updates[..i])
    {
      ok, staged := StageNext(at, updates, i, staged);
      if !ok {
        FailedAt(at, updates, i);
        return;
      }
      TargetsOneMore(updates, i);
    }
    assert updates[..|updates|] == updates;
    ok := true;
  }

  lemma FailedAt(at: Situation, updates: seq<PlanUpdate>, i: nat)
    requires i < |updates| && !(TargetsOk(updates[i]) && Acceptable(at, AllOps(updates[..i + 1])))
    ensures !(Acceptable(at, AllOps(updates)) && AllTargetsOk(updates))
  {
    if TargetsOk(updates[i]) {
      PrefixOps(at, updates, i + 1);
    }
  }

  lemma TargetsOneMore(updates: seq<PlanUpdate>, i: nat)
    requires i < |updates| && AllTargetsOk(updates[..i]) && TargetsOk(updates[i])
    ensures AllTargetsOk(updates[..i + 1])
  {
    var more := updates[..i + 1];
    forall j | 0 <= j < |more|
      ensures TargetsOk(more[j])
    {
      if j < i {
        assert more[j] == updates[..i][j] && TargetsOk(updates[..i][j]);
      }
    }
  }

  lemma OneMoreUpdate(updates: seq<PlanUpdate>, i: nat)
    requires i < |updates|
    ensures Continues(AllOps(updates[..i]), AllOps(updates[..i + 1]), updates[i], Named(updates[i]))
  {
    assert updates[..i + 1][..i] == updates[..i];
  }

  lemma {:induction false} PrefixOps(at: Situation, updates: seq<PlanUpdate>, i: nat)
    requires i <= |updates| && !Acceptable(at, AllOps(updates[..i]))
    ensures !Acceptable(at, AllOps(updates))
    decreases |updates| - i
  {
    if i == |updates| {
      assert updates[..i] == updates;
    } else {
      assert updates[..i + 1][..i] == updates[..i];
      if Acceptable(at, AllOps(updates[..i + 1])) {
        AcceptablePrefix(at, AllOps(updates[..i]), OpsOf(updates[i]));
      }
      PrefixOps(at, updates, i + 1);
    }
  }

  lemma {:induction false} HasOp(updates: seq<PlanUpdate>, i: nat, j: nat)
    requires i < |updates| && j < |Named(updates[i])|
    ensures Named(updates[i])[j] in SlotsOf(AllOps(updates))
  {
    var n := |updates| - 1;
    if i < n {
      HasOp(updates[..n], i, j);
      SlotsGrow(AllOps(updates[..n]), OpsOf(updates[n]), Named(updates[i])[j]);
    } else {
      SlotOf(OpsOf(updates[n]), j);
      SlotsGrow(AllOps(updates[..n]), OpsOf(updates[n]), Named(updates[i])[j]);
    }
  }

  lemma {:induction false} SlotOf(ops: seq<Op>, j: nat)
    requires j < |ops|
    ensures ops[j].slot in SlotsOf(ops)
  {
    if j < |ops| - 1 {
      SlotOf(ops[..|ops| - 1], j);
    }
  }

  lemma {:induction false} SlotsGrow(a: seq<Op>, b: seq<Op>, s: nat)
    ensures s in SlotsOf(a + b) <==> s in SlotsOf(a) || s in SlotsOf(b)
  {
    if b == [] {
      assert a + b == a;
    } else {
      var n := |b| - 1;
      assert (a + b)[..|a + b| - 1] == a + b[..n];
      SlotsGrow(a, b[..n], s);
    }
  }

  ghost predicate Targets(u: PlanUpdate, s: nat)
  {
    s in u.slots || (u.fromSlot.Some? && u.toSlot.Some? && u.fromSlot.value <= s <= u.toSlot.value)
  }

  lemma NamedAreTargets(u: PlanUpdate, s: nat)
    ensures s in Named(u) <==> Targets(u, s)
  {
    if RangeGiven(u) {
      RangeHas(u.fromSlot.value, u.toSlot.value);
    }
  }

  /** The slots of a request are those that some update names or has in its range. */
  lemma {:induction false} SlotsAreTargets(updates: seq<PlanUpdate>, s: nat)
    ensures s in SlotsOf(AllOps(updates)) <==> exists i :: 0 <= i < |updates| && Targets(updates[i], s)
  {
    if updates != [] {
      var n := |updates| - 1;
      SlotsAreTargets(updates[..n], s);
      SlotsGrow(AllOps(updates[..n]), OpsOf(updates[n]), s);
      OpsHaveSlot(updates[n], s);
      NamedAreTargets(updates[n], s);
      assert forall i :: 0 <= i < n ==> updates[..n][i] == updates[i];
    }
  }

  lemma OpsHaveSlot(u: PlanUpdate, s: nat)
    ensures s in SlotsOf(OpsOf(u)) <==> s in Named(u)
  {
    if s in Named(u) {
      var j :| 0 <= j < |Named(u)| && Named(u)[j] == s;
      SlotOf(OpsOf(u), j);
    }
    if s in SlotsOf(OpsOf(u)) {
      var j := OpOf(OpsOf(u), s);
    }
  }

  lemma {:induction false} OpOf(ops: seq<Op>, s: nat) returns (j: nat)
    requires s in SlotsOf(ops)
    ensures j < |ops| && ops[j].slot == s
  {
    j := |ops| - 1;
    if ops[j].slot != s {
      j := OpOf(ops[..|ops| - 1], s);
    }
  }

  /** A plan that a request leaves for one of its slots is valid and carries the slot and the actor. */
  lemma {:induction false} FoldedBy(codec: Codec, actor: nat, ops: seq<Op>, slot: nat, start: Option<Plan>)
    requires slot in SlotsOf(ops) && Fold(Applying(codec, actor), ops, slot, start).Some?
    ensures var plan := Fold(Applying(codec, actor), ops, slot, start).value;
      plan.Some? ==> plan.value.slot == slot && plan.value.updatedBy == actor && codec.valid(plan.value.categories)
  {
    if ops[|ops| - 1].slot != slot {
      FoldedBy(codec, actor, ops[..|ops| - 1], slot, start);
    }
  }

  /** The last update of a slot that deletes leaves none, and one that does not is refused only by itself or Validate. */
  lemma LastUpdateDecides(codec: Codec, actor: nat, ops: seq<Op>, op: Op, start: Option<Plan>)
    requires Fold(Applying(codec, actor), ops, op.slot, start).Some?
    ensures var before := Fold(Applying(codec, actor), ops, op.slot, start).value;
      var after := Fold(Applying(codec, actor), ops + [op], op.slot, start);
      var applied := Applied(codec, CategoriesOf(before), op.update);
      && (op.update.delete ==> after == Some(None))
      && (after.None? <==> applied.None? || (applied.value.Some? && !codec.valid(applied.value.value)))
      && (after.Some? ==> CategoriesOf(after.value) == applied.value)
  {
    assert (ops + [op])[..|ops|] == ops;
  }

  /** The wrapping range, which targets slot 0, is never accepted, so an accepted request keeps the bound for each update. */
  lemma AcceptedAreBounded(at: Situation, updates: seq<PlanUpdate>, i: nat)
    requires Acceptable(at, AllOps(updates)) && i < |updates| && TargetsOk(updates[i])
    ensures |Named(updates[i])| <= MAX_SLOTS_PER_UPDATE
  {
    if Wraps(updates[i]) {
      HasOp(updates, i, |updates[i].slots|);
    }
  }

  // ----- the service -----

  datatype Snapshot = Snapshot(content: nat, forced: bool)

  /** resolveFrozenPlan as a function of slot, plan, configuration and built slots. */
  type Resolver = (nat, Option<Plan>, nat, nat) -> Snapshot

  class Service {
    var store: Plans
    var frozen: map<nat, Snapshot>
    var slotsBuilt: nat
    ghost var atFreeze: map<nat, Option<Plan>> // the stored plan when the slot was frozen
    ghost var prunedBelow: nat

    /** Stored plans have instructions, and that of a frozen slot is the one that was frozen, until it is pruned. */
    ghost predicate Valid()
      reads this
    {
      StoreOk(store) && forall s :: s in frozen ==> s in atFreeze && (s >= prunedBelow ==> Get(store, s) == atFreeze[s])
    }

    constructor ()
      ensures Valid() && store == map[] && frozen == map[] && slotsBuilt == 0 && prunedBelow == 0
    {
      store, frozen, slotsBuilt, atFreeze, prunedBelow := map[], map[], 0, map[], 0;
    }

    /** The first caller decides; every later one gets the same snapshot. */
    method Freeze(slot: nat, config: nat, resolve: Resolver) returns (snapshot: Snapshot)
      requires Valid()
      modifies this`frozen, this`atFreeze
      ensures Valid() && slot in frozen && snapshot == frozen[slot]
      ensures frozen == if slot in old(frozen) then old(frozen) else old(frozen)[slot := snapshot]
      ensures slot !in old(frozen) ==>
        snapshot == resolve(slot, Get(store, slot), config, slotsBuilt) && atFreeze == old(atFreeze)[slot := Get(store, slot)]
      ensures slot in old(frozen) ==> atFreeze == old(atFreeze)
    {
      if slot in frozen {
        return frozen[slot];
      }
      var plan := Get(store, slot);
      snapshot := resolve(slot, plan, config, slotsBuilt);
      frozen := frozen[slot := snapshot];
      atFreeze := atFreeze[slot := plan];
    }

    method OnSlotBuilt(slot: nat)
      requires Valid()
      modifies this`slotsBuilt
      ensures slotsBuilt == old(slotsBuilt) + if slot in frozen && frozen[slot].forced then 0 else 1
    {
      if slot in frozen && frozen[slot].forced {
        return;
      }
      slotsBuilt := slotsBuilt + 1;
    }

    /**
     All or nothing, and per slot the same as applying the updates that target it one by one: also across a delete
     and a later edit of the same slot in one request.
     */
    method ApplyUpdates(codec: Codec, updates: seq<PlanUpdate>, actor: nat, currentSlot: nat) returns (event: Option<Staged>)
      requires Valid() && forall i :: 0 <= i < |updates| ==> |updates[i].slots| < TWO_TO_64 / 2
      modifies this`store
      ensures Valid()
      ensures var at := Situation(Applying(codec, actor), old(store), frozen.Keys, currentSlot);
        && (event.Some? <==>
              && updates != [] && AllTargetsOk(updates) && |SlotsOf(AllOps(updates))| <= MAX_SLOTS_PER_UPDATE
              && (forall s :: s in SlotsOf(AllOps(updates)) ==> s > currentSlot && s !in frozen)
              && forall s :: FoldIn(at, AllOps(updates), s).Some?)
        && (event.None? ==> store == old(store))
        && (event.Some? ==> forall s :: FoldIn(at, AllOps(updates), s) == Some(Get(store, s)))
        && (event.Some? ==> event.value.Keys == SlotsOf(AllOps(updates)))
        && (event.Some? ==> forall s :: s in event.value ==> event.value[s] == Get(store, s))
      ensures event.Some? ==> forall s {:trigger Get(store, s)} :: s !in event.value ==> Get(store, s) == Get(old(store), s)
      ensures event.Some? ==> forall s :: s in event.value && event.value[s].Some? ==>
        var plan := event.value[s].value; plan.slot == s && plan.updatedBy == actor && codec.valid(plan.categories)
    {
      if |updates| == 0 {
        return None;
      }
      var at := Situation(Applying(codec, actor), store, frozen.Keys, currentSlot);
      var ok, staged := StageAll(at, updates);
      if !ok {
        return None;
      }
      forall s | s in staged
        ensures PlanOk(staged[s], s)
      {
        assert PlanOk(Get(store, s), s);
        FoldedOk(codec, actor, AllOps(updates), s, Get(store, s));
      }
      Commit(staged);
      forall s
        ensures FoldIn(at, AllOps(updates), s) == Some(Get(store, s))
      {
        UntouchedIfNew(at, AllOps(updates), s, staged);
      }
      forall s | s in staged && staged[s].Some?
        ensures staged[s].value.updatedBy == actor && codec.valid(staged[s].value.categories) && staged[s].value.slot == s
      {
        FoldedBy(codec, actor, AllOps(updates), s, Get(at.store, s));
      }
      return Some(staged);
    }

    method Commit(staged: Staged)
      requires Valid() && staged.Keys !! frozen.Keys && forall s :: s in staged ==> PlanOk(staged[s], s)
      modifies this`store
      ensures Valid()
      ensures forall s :: Get(store, s) == if s in staged then staged[s] else Get(old(store), s)
    {
      ghost var before := store;
      WriteAll(staged);
      forall s
        ensures PlanOk(Get(store, s), s)
      {
        assert PlanOk(Get(before, s), s);
      }
    }

    method WriteAll(staged: Staged)
      modifies this`store
      ensures forall s :: Get(store, s) == if s in staged then staged[s] else Get(old(store), s)
    {
      ghost var before := store;
      var rest := staged.Keys;
      while rest != {}
        invariant rest <= staged.Keys
        invariant forall s :: Get(store, s) == if s in staged && s !in rest then staged[s] else Get(before, s)
        decreases |rest|
      {
        var slot :| slot in rest;
        rest := rest - {slot};
        if staged[slot].None? {
          store := store - {slot};
        } else {
          store := store[slot := staged[slot].value];
        }
      }
    }

    /** Plans go with the retention window, freeze markers with the epoch before the last. */
    method PruneForEpoch(epoch: nat, retention: nat, slotsPerEpoch: nat)
      requires Valid()
      modifies this`store, this`frozen, this`prunedBelow
      ensures Valid()
      ensures retention == 0 || epoch <= retention ==> store == old(store) && frozen == old(frozen)
      ensures retention > 0 && epoch > retention ==>
        && store == (map s | s in old(store) && s >= (epoch - retention) * slotsPerEpoch :: old(store)[s])
        && frozen == (map s | s in old(frozen) && s >= (epoch - 1) * slotsPerEpoch :: old(frozen)[s])
    {
      if retention == 0 || epoch <= retention {
        return;
      }
      var cutoff := (epoch - retention) * slotsPerEpoch;
      FewerPlansOk(store, cutoff);
      store := map s | s in store && s >= cutoff :: store[s];
      if cutoff > prunedBelow {
        prunedBelow := cutoff;
      }
      var markerCutoff := (epoch - 1) * slotsPerEpoch;
      frozen := map s | s in frozen && s >= markerCutoff :: frozen[s];
    }
  }
}
