/**
 One update of a slot plan (pkg/action_plan/types.go): the slots that it targets and what it makes of a plan.
 JSON is taken as already tokenised; the strict decoder of a category is a parameter.
 */
module PlanUpdate {
  import opened Common

  const MAX_SLOTS_PER_UPDATE: nat := 6400

  type Uint64 = n: nat | n < TWO_TO_64

  datatype Category = Bid | BuilderApi | Reveal | Build | Transforms

  /** The members of a category object that are not omitted, by field name, with their raw values. */
  type Members = map<nat, nat>

  const MODE: nat := 0 // the field "mode"
  const CUSTOM: nat := 0 // its value "custom"

  /** A raw message: none at all, null, or anything else. */
  datatype Json = Absent | Null | Given(raw: nat)

  /** The category before the first dot, and the rest after it. */
  datatype Path = Whole(category: Category) | Field(category: Category, field: nat) | EmptyField | UnknownPath

  datatype Setting = Setting(path: Path, value: Json)

  /** patches holds the category members of the request; paths the entries of `set`, in lexicographic order. */
  datatype PlanUpdate = PlanUpdate(
    slots: seq<Uint64>,
    fromSlot: Option<Uint64>,
    toSlot: Option<Uint64>,
    delete: bool,
    patches: map<Category, Json>,
    paths: seq<Setting>)

  type Categories = map<Category, Members>

  /**
   decodeRaw and decodeMembers are the strict decoder, applied to a raw message and to an object with these members;
   None is an error. valid is SlotPlan.Validate.
   */
  datatype Codec = Codec(
    decodeRaw: (Category, nat) -> Option<Members>,
    decodeMembers: (Category, Members) -> Option<Members>,
    valid: Categories -> bool)

  // ----- the slots -----

  function Range(first: nat, last: nat): (r: seq<nat>)
    requires first <= last
    ensures |r| == last - first + 1
  {
    seq(last - first + 1, i requires 0 <= i => first + i)
  }

  lemma RangeHas(first: nat, last: nat)
    requires first <= last
    ensures forall s: nat :: s in Range(first, last) <==> first <= s <= last
  {
    forall s: nat | first <= s <= last
      ensures s in Range(first, last)
    {
      assert Range(first, last)[s - first] == s;
    }
  }

  ghost predicate RangeGiven(u: PlanUpdate)
  {
    u.fromSlot.Some? && u.toSlot.Some? && u.fromSlot.value <= u.toSlot.value
  }

  /** The slots named, then those of the range. */
  ghost function Named(u: PlanUpdate): seq<nat>
  {
    u.slots + if RangeGiven(u) then Range(u.fromSlot.value, u.toSlot.value) else []
  }

  /** The whole range of 64-bit slots, the size of which is 0 in 64 bits, next to some named slots. */
  ghost predicate Wraps(u: PlanUpdate)
  {
    RangeGiven(u) && u.fromSlot.value == 0 && u.toSlot.value == TWO_TO_64 - 1 && 0 < |u.slots| <= MAX_SLOTS_PER_UPDATE
  }

  /** Both ends of a range or none, in order, and some slot. */
  ghost predicate WellFormedTargets(u: PlanUpdate)
  {
    && (u.fromSlot.Some? <==> u.toSlot.Some?)
    && (u.fromSlot.Some? ==> u.fromSlot.value <= u.toSlot.value)
    && Named(u) != []
  }

  /** The bound of 6400 slots holds for what is returned, except when the size of the range wraps around to 0. */
  method TargetSlots(u: PlanUpdate) returns (targets: Option<seq<nat>>)
    requires |u.slots| < TWO_TO_64 / 2
    ensures targets.Some? <==> WellFormedTargets(u) && (|Named(u)| <= MAX_SLOTS_PER_UPDATE || Wraps(u))
    ensures u.fromSlot.None? && u.toSlot.None? ==> (targets.Some? <==> 0 < |u.slots| <= MAX_SLOTS_PER_UPDATE)
    ensures u.fromSlot.Some? && u.toSlot.Some? ==>
      var size := u.toSlot.value - u.fromSlot.value + 1;
      targets.Some? <==>
        size >= 1 && (|u.slots| + size <= MAX_SLOTS_PER_UPDATE || (size == TWO_TO_64 && 0 < |u.slots| <= MAX_SLOTS_PER_UPDATE))
    ensures u.fromSlot.Some? != u.toSlot.Some? ==> targets.None?
    ensures targets.Some? ==> targets.value == Named(u)
    ensures targets.Some? ==> forall s: nat :: s in targets.value <==>
      s in u.slots || (u.fromSlot.Some? && u.toSlot.Some? && u.fromSlot.value <= s <= u.toSlot.value)
    ensures targets.Some? && u.fromSlot.None? ==> |targets.value| == |u.slots|
    ensures targets.Some? && u.fromSlot.Some? ==> |targets.value| == |u.slots| + u.toSlot.value - u.fromSlot.value + 1
    ensures targets.Some? ==> (|targets.value| <= MAX_SLOTS_PER_UPDATE <==> !Wraps(u))
  {
    var count: nat := |u.slots|;
    if u.fromSlot.None? != u.toSlot.None? {
      return None;
    }
    if u.fromSlot.Some? {
      if u.toSlot.value < u.fromSlot.value {
        return None;
      }
      var rangeCount := (u.toSlot.value - u.fromSlot.value + 1) % TWO_TO_64;
      if rangeCount > MAX_SLOTS_PER_UPDATE {
        return None;
      }
      count := (count + rangeCount) % TWO_TO_64;
    }
    if count == 0 {
      return None;
    }
    if count > MAX_SLOTS_PER_UPDATE {
      return None;
    }
    var list: seq<nat> := u.slots;
    if u.fromSlot.Some? {
      list := AppendRange(list, u.fromSlot.value, u.toSlot.value);
      RangeHas(u.fromSlot.value, u.toSlot.value);
    }
    return Some(list);
  }

  method AppendRange(list: seq<nat>, first: nat, last: nat) returns (r: seq<nat>)
    requires first <= last
    ensures r == list + Range(first, last)
  {
    r := list;
    var slot := first;
    while true
      invariant first <= slot <= last
      invariant r == list + Range(first, last)[..slot - first]
      decreases last - slot
    {
      r := r + [slot];
      if slot == last {
        break;
      }
      slot := slot + 1;
    }
  }

  // ----- one category -----

  datatype Patched = Failed | Patched(members: Option<Members>)

  /** No message keeps the category, null clears it, anything else replaces it. */
  function CategoryPatch(codec: Codec, category: Category, raw: Json, current: Option<Members>): Patched
  {
    match raw
    case Absent => Patched(current)
    case Null => Patched(None)
    case Given(v) =>
      var decoded := codec.decodeRaw(category, v);
      if decoded.None? then Failed else Patched(decoded)
  }

  predicate HasMode(category: Category)
  {
    category != Build && category != Transforms
  }

  /** The members that a field edit starts from; editing a field of an absent category with a mode makes it custom. */
  function MembersBefore(category: Category, field: nat, current: Option<Members>): Members
  {
    if current.Some? then current.value
    else if field != MODE && HasMode(category) then map[MODE := CUSTOM]
    else map[]
  }

  function FieldPatch(codec: Codec, category: Category, field: nat, value: Json, current: Option<Members>): Patched
  {
    var members := MembersBefore(category, field, current);
    if value == Absent || (value == Null && field == MODE) then Failed
    else
      var merged := if value == Null then members - {field} else members[field := value.raw];
      var decoded := codec.decodeMembers(category, merged);
      if decoded.None? then Failed else Patched(decoded)
  }

  function Lookup(cats: Categories, category: Category): Option<Members>
  {
    if category in cats then Some(cats[category]) else None
  }

  function Store(cats: Categories, category: Category, members: Option<Members>): Categories
  {
    if members.Some? then cats[category := members.value] else cats - {category}
  }

  function StorePatched(cats: Categories, category: Category, patched: Patched): Option<Categories>
  {
    if patched.Failed? then None else Some(Store(cats, category, patched.members))
  }

  // ----- the update -----

  function OnePath(codec: Codec, cats: Categories, s: Setting): Option<Categories>
  {
    match s.path
    case Whole(c) => StorePatched(cats, c, CategoryPatch(codec, c, s.value, Lookup(cats, c)))
    case Field(c, f) => StorePatched(cats, c, FieldPatch(codec, c, f, s.value, Lookup(cats, c)))
    case EmptyField => None
    case UnknownPath => None
  }

  function AfterPaths(codec: Codec, cats: Categories, paths: seq<Setting>): Option<Categories>
  {
    if paths == [] then Some(cats)
    else
      var before := AfterPaths(codec, cats, paths[..|paths| - 1]);
      if before.None? then None else OnePath(codec, before.value, paths[|paths| - 1])
  }

  method ApplySetPaths(codec: Codec, cats: Categories, paths: seq<Setting>) returns (result: Option<Categories>)
    ensures result == AfterPaths(codec, cats, paths)
  {
    var plan := cats;
    for i := 0 to |paths|
      invariant AfterPaths(codec, cats, paths[..i]) == Some(plan)
    {
      assert paths[..i + 1][..i] == paths[..i];
      var next := OnePath(codec, plan, paths[i]);
      if next.None? {
        FailedStaysFailed(codec, cats, paths, i + 1);
        return None;
      }
      plan := next.value;
    }
    assert paths[..|paths|] == paths;
    return Some(plan);
  }

  lemma {:induction false} FailedStaysFailed(codec: Codec, cats: Categories, paths: seq<Setting>, i: nat)
    requires i <= |paths| && AfterPaths(codec, cats, paths[..i]).None?
    ensures AfterPaths(codec, cats, paths).None?
    decreases |paths| - i
  {
    if i < |paths| {
      assert paths[..i + 1][..i] == paths[..i];
      FailedStaysFailed(codec, cats, paths, i + 1);
    } else {
      assert paths[..i] == paths;
    }
  }

  function PatchOf(u: PlanUpdate, category: Category): Json
  {
    if category in u.patches then u.patches[category] else Absent
  }

  /** The five category members, one after the other; they touch different categories. */
  function AfterMembers(codec: Codec, cats: Categories, u: PlanUpdate, order: seq<Category>): Option<Categories>
  {
    if order == [] then Some(cats)
    else
      var before := AfterMembers(codec, cats, u, order[..|order| - 1]);
      if before.None? then None
      else
        var c := order[|order| - 1];
        StorePatched(before.value, c, CategoryPatch(codec, c, PatchOf(u, c), Lookup(before.value, c)))
  }

  const ORDER: seq<Category> := [Bid, BuilderApi, Reveal, Build, Transforms]

  /** Build and transform objects without members carry no instruction. */
  function DropZero(cats: Categories): Categories
  {
    map c | c in cats && (HasMode(c) || cats[c] != map[]) :: cats[c]
  }

  /** ApplyUpdateToPlan, up to the slot and the stamps: None is an error, Some(None) a plan without instructions. */
  function Applied(codec: Codec, existing: Option<Categories>, u: PlanUpdate): Option<Option<Categories>>
  {
    if u.delete then Some(None)
    else
      var start := if existing.Some? then existing.value else map[];
      var patched := AfterMembers(codec, start, u, ORDER);
      if patched.None? then None
      else
        var edited := AfterPaths(codec, patched.value, u.paths);
        if edited.None? then None
        else
          var result := DropZero(edited.value);
          Some(if result == map[] then None else Some(result))
  }

  // ----- what an update does -----

  // each category on its own

  function CategoryOf(path: Path): Option<Category>
  {
    match path
    case Whole(c) => Some(c)
    case Field(c, _) => Some(c)
    case EmptyField => None
    case UnknownPath => None
  }

  /** The entries of `set` for one category, in their order. */
  function PathsOf(c: Category, paths: seq<Setting>): seq<Setting>
  {
    if paths == [] then []
    else
      var last := paths[|paths| - 1];
      PathsOf(c, paths[..|paths| - 1]) + if CategoryOf(last.path) == Some(c) then [last] else []
  }

  predicate AllKnown(paths: seq<Setting>)
  {
    forall i :: 0 <= i < |paths| ==> CategoryOf(paths[i].path).Some?
  }

  /** One entry, on the category's own object. */
  function OnObject(codec: Codec, c: Category, current: Option<Members>, s: Setting): Patched
  {
    if s.path.Field? then FieldPatch(codec, c, s.path.field, s.value, current) else CategoryPatch(codec, c, s.value, current)
  }

  function ObjectAfter(codec: Codec, c: Category, current: Option<Members>, paths: seq<Setting>): Patched
  {
    if paths == [] then Patched(current)
    else
      var before := ObjectAfter(codec, c, current, paths[..|paths| - 1]);
      if before.Failed? then Failed else OnObject(codec, c, before.members, paths[|paths| - 1])
  }

  /** The paths succeed, and what they make of the category, when every category gets its own paths only. */
  ghost predicate ObjectsOk(codec: Codec, cats: Categories, paths: seq<Setting>)
  {
    AllKnown(paths) && forall c :: ObjectAfter(codec, c, Lookup(cats, c), PathsOf(c, paths)).Patched?
  }

  ghost predicate ObjectsAre(codec: Codec, cats: Categories, paths: seq<Setting>, cats': Categories)
  {
    forall c :: ObjectAfter(codec, c, Lookup(cats, c), PathsOf(c, paths)) == Patched(Lookup(cats', c))
  }

  /** Categories do not interact: the whole list succeeds when each category's own entries do, and does what they do. */
  lemma {:induction false} PathsByCategory(codec: Codec, cats: Categories, paths: seq<Setting>)
    ensures AfterPaths(codec, cats, paths).Some? <==> ObjectsOk(codec, cats, paths)
    ensures AfterPaths(codec, cats, paths).Some? ==> ObjectsAre(codec, cats, paths, AfterPaths(codec, cats, paths).value)
  {
    if paths != [] {
      var n := |paths| - 1;
      PathsByCategory(codec, cats, paths[..n]);
      assert paths == paths[..n] + [paths[n]];
      if AfterPaths(codec, cats, paths[..n]).Some? {
        OnePathByCategory(codec, cats, paths[..n], AfterPaths(codec, cats, paths[..n]).value, paths[n]);
      } else {
        FailedObject(codec, cats, paths[..n], paths[n]);
      }
    }
  }

  lemma PathsOfLast(c: Category, paths: seq<Setting>, s: Setting)
    ensures PathsOf(c, paths + [s]) == PathsOf(c, paths) + if CategoryOf(s.path) == Some(c) then [s] else []
  {
    assert (paths + [s])[..|paths|] == paths;
  }

  lemma ObjectAfterLast(codec: Codec, c: Category, current: Option<Members>, paths: seq<Setting>, s: Setting)
    ensures ObjectAfter(codec, c, current, paths + [s]) ==
      var before := ObjectAfter(codec, c, current, paths);
      if before.Failed? then Failed else OnObject(codec, c, before.members, s)
  {
    assert (paths + [s])[..|paths|] == paths;
  }

  lemma OnePathByCategory(codec: Codec, cats: Categories, paths: seq<Setting>, before: Categories, s: Setting)
    requires ObjectsOk(codec, cats, paths) && ObjectsAre(codec, cats, paths, before)
    ensures OnePath(codec, before, s).Some? <==> ObjectsOk(codec, cats, paths + [s])
    ensures OnePath(codec, before, s).Some? ==> ObjectsAre(codec, cats, paths + [s], OnePath(codec, before, s).value)
  {
    KnownLast(paths, s);
    PathOnObject(codec, before, s);
    if OnePath(codec, before, s).Some? {
      forall c
        ensures ObjectAfter(codec, c, Lookup(cats, c), PathsOf(c, paths + [s])) == Patched(Lookup(OnePath(codec, before, s).value, c))
      {
        ObjectStep(codec, c, Lookup(cats, c), paths, Lookup(before, c), s);
        assert IsObject(codec, before, s, OnePath(codec, before, s).value, c);
      }
    } else if CategoryOf(s.path).Some? {
      var c := CategoryOf(s.path).value;
      ObjectStep(codec, c, Lookup(cats, c), paths, Lookup(before, c), s);
    }
  }

  lemma ObjectStep(codec: Codec, c: Category, current: Option<Members>, paths: seq<Setting>, before: Option<Members>, s: Setting)
    requires ObjectAfter(codec, c, current, PathsOf(c, paths)) == Patched(before)
    ensures ObjectAfter(codec, c, current, PathsOf(c, paths + [s])) ==
      if CategoryOf(s.path) == Some(c) then OnObject(codec, c, before, s) else Patched(before)
  {
    PathsOfLast(c, paths, s);
    ObjectAfterLast(codec, c, current, PathsOf(c, paths), s);
    assert PathsOf(c, paths) + [] == PathsOf(c, paths);
  }

  lemma KnownLast(paths: seq<Setting>, s: Setting)
    ensures AllKnown(paths + [s]) <==> AllKnown(paths) && CategoryOf(s.path).Some?
  {
    assert (paths + [s])[|paths|] == s;
    assert forall i :: 0 <= i < |paths| ==> (paths + [s])[i] == paths[i];
  }

  /** One path, seen from every category. */
  lemma PathOnObject(codec: Codec, cats: Categories, s: Setting)
    ensures OnePath(codec, cats, s).Some? <==>
      CategoryOf(s.path).Some? && OnObject(codec, CategoryOf(s.path).value, Lookup(cats, CategoryOf(s.path).value), s).Patched?
    ensures OnePath(codec, cats, s).Some? ==> forall c :: IsObject(codec, cats, s, OnePath(codec, cats, s).value, c)
  {
  }

  ghost predicate IsObject(codec: Codec, cats: Categories, s: Setting, cats': Categories, c: Category)
  {
    Patched(Lookup(cats', c)) ==
    if CategoryOf(s.path) == Some(c) then OnObject(codec, c, Lookup(cats, c), s) else Patched(Lookup(cats, c))
  }

  lemma FailedObject(codec: Codec, cats: Categories, paths: seq<Setting>, s: Setting)
    requires !ObjectsOk(codec, cats, paths)
    ensures !ObjectsOk(codec, cats, paths + [s])
  {
    if AllKnown(paths) {
      var c :| ObjectAfter(codec, c, Lookup(cats, c), PathsOf(c, paths)).Failed?;
      PathsOfLast(c, paths, s);
      ObjectAfterLast(codec, c, Lookup(cats, c), PathsOf(c, paths), s);
      assert PathsOf(c, paths) + [] == PathsOf(c, paths);
    } else {
      var i :| 0 <= i < |paths| && CategoryOf(paths[i].path).None?;
      assert (paths + [s])[i] == paths[i];
    }
  }

  lemma {:induction false} MembersSucceed(codec: Codec, cats: Categories, u: PlanUpdate, order: seq<Category>)
    requires forall i, j :: 0 <= i < j < |order| ==> order[i] != order[j]
    ensures AfterMembers(codec, cats, u, order).Some? <==>
      forall c :: c in order ==> CategoryPatch(codec, c, PatchOf(u, c), Lookup(cats, c)).Patched?
  {
    if order != [] {
      var n := |order| - 1;
      MembersSucceed(codec, cats, u, order[..n]);
      assert forall c :: c in order <==> c in order[..n] || c == order[n];
      if AfterMembers(codec, cats, u, order[..n]).Some? {
        MembersDo(codec, cats, u, order[..n], order[n]);
      }
    }
  }

  lemma {:induction false} MembersDo(codec: Codec, cats: Categories, u: PlanUpdate, order: seq<Category>, c: Category)
    requires AfterMembers(codec, cats, u, order).Some?
    requires forall i, j :: 0 <= i < j < |order| ==> order[i] != order[j]
    ensures c !in order ==> Lookup(AfterMembers(codec, cats, u, order).value, c) == Lookup(cats, c)
    ensures c in order ==>
      Patched(Lookup(AfterMembers(codec, cats, u, order).value, c)) == CategoryPatch(codec, c, PatchOf(u, c), Lookup(cats, c))
  {
    if order != [] {
      var n := |order| - 1;
      MembersDo(codec, cats, u, order[..n], c);
      assert c in order <==> c in order[..n] || c == order[n];
      assert c == order[n] ==> c !in order[..n];
    }
  }

  ghost predicate Normal(cats: Categories)
  {
    cats != map[] && forall c :: c in cats && !HasMode(c) ==> cats[c] != map[]
  }

  ghost function StoredObject(plan: Option<Categories>, c: Category): Option<Members>
  {
    if plan.Some? then Lookup(plan.value, c) else None
  }

  /** What the update makes of one category: its member of the request, then its entries of `set`. */
  function Updated(codec: Codec, u: PlanUpdate, c: Category, current: Option<Members>): Patched
  {
    var patched := CategoryPatch(codec, c, PatchOf(u, c), current);
    if patched.Failed? then Failed else ObjectAfter(codec, c, patched.members, PathsOf(c, u.paths))
  }

  /**
   The update succeeds exactly when its paths are known and every category's part succeeds on that category's object, and
   then every category is what its part makes of it.
   */
  lemma UpdateOf(codec: Codec, existing: Option<Categories>, u: PlanUpdate)
    requires !u.delete
    ensures Applied(codec, existing, u).Some? <==>
      AllKnown(u.paths) && forall c :: Updated(codec, u, c, StoredObject(existing, c)).Patched?
    ensures Applied(codec, existing, u).Some? ==> forall c :: UpdatedAs(codec, existing, u, c)
  {
    var start := if existing.Some? then existing.value else map[];
    AllCategories();
    MembersSucceed(codec, start, u, ORDER);
    forall c
      ensures Lookup(start, c) == StoredObject(existing, c)
    {
    }
    if AfterMembers(codec, start, u, ORDER).Some? {
      UpdateOfPatched(codec, existing, u, start, AfterMembers(codec, start, u, ORDER).value);
    } else {
      var c :| c in ORDER && CategoryPatch(codec, c, PatchOf(u, c), Lookup(start, c)).Failed?;
      assert Updated(codec, u, c, StoredObject(existing, c)).Failed?;
    }
  }

  ghost predicate UpdatedAs(codec: Codec, existing: Option<Categories>, u: PlanUpdate, c: Category)
    requires Applied(codec, existing, u).Some?
  {
    var updated := Updated(codec, u, c, StoredObject(existing, c));
    updated.Patched? && StoredObject(Applied(codec, existing, u).value, c) == WithoutZero(c, updated.members)
  }

  lemma AllCategories()
    ensures (forall i, j :: 0 <= i < j < |ORDER| ==> ORDER[i] != ORDER[j]) && forall c :: c in ORDER
  {
    forall c
      ensures c in ORDER
    {
      match c
      case Bid => assert ORDER[0] == c;
      case BuilderApi => assert ORDER[1] == c;
      case Reveal => assert ORDER[2] == c;
      case Build => assert ORDER[3] == c;
      case Transforms => assert ORDER[4] == c;
    }
  }

  lemma UpdateOfPatched(codec: Codec, existing: Option<Categories>, u: PlanUpdate, start: Categories, patched: Categories)
    requires !u.delete && start == (if existing.Some? then existing.value else map[])
    requires AfterMembers(codec, start, u, ORDER) == Some(patched)
    ensures Applied(codec, existing, u).Some? <==>
      AllKnown(u.paths) && forall c :: Updated(codec, u, c, StoredObject(existing, c)).Patched?
    ensures Applied(codec, existing, u).Some? ==> forall c :: UpdatedAs(codec, existing, u, c)
  {
    AllCategories();
    PathsByCategory(codec, patched, u.paths);
    forall c
      ensures Updated(codec, u, c, StoredObject(existing, c)) == ObjectAfter(codec, c, Lookup(patched, c), PathsOf(c, u.paths))
    {
      MembersDo(codec, start, u, ORDER, c);
      assert Lookup(start, c) == StoredObject(existing, c);
    }
    if Applied(codec, existing, u).Some? {
      forall c
        ensures UpdatedAs(codec, existing, u, c)
      {
        DropZeroAt(AfterPaths(codec, patched, u.paths).value, c);
      }
    }
  }

  /** A category that the update does not mention is kept, which is why stored plans are free of empty objects. */
  lemma UntouchedCategory(codec: Codec, existing: Option<Categories>, u: PlanUpdate, c: Category)
    requires existing.Some? ==> Normal(existing.value)
    requires !u.delete && Applied(codec, existing, u).Some? && PatchOf(u, c) == Absent && PathsOf(c, u.paths) == []
    ensures StoredObject(Applied(codec, existing, u).value, c) == StoredObject(existing, c)
  {
    UpdateOf(codec, existing, u);
    assert UpdatedAs(codec, existing, u, c);
  }

  /** A delete leaves no plan, whatever else the update says. */
  lemma DeletedIsGone(codec: Codec, existing: Option<Categories>, u: PlanUpdate)
    requires u.delete
    ensures Applied(codec, existing, u) == Some(None)
  {
  }

  /** What a message for a whole category makes of it: none keeps the object, null removes it, anything else is decoded. */
  ghost predicate IsReplaced(codec: Codec, c: Category, message: Json, before: Option<Members>, after: Option<Members>)
  {
    match message
    case Absent => after == before
    case Null => after == None
    case Given(raw) => codec.decodeRaw(c, raw).Some? && after == codec.decodeRaw(c, raw)
  }

  /** Objects of the build and transform categories that are empty are not kept. */
  ghost predicate IsKept(c: Category, members: Option<Members>, stored: Option<Members>)
  {
    stored == if (c == Build || c == Transforms) && members == Some(map[]) then None else members
  }

  /** A category without entries in `set` becomes what its member of the request says. */
  lemma MemberDecides(codec: Codec, existing: Option<Categories>, u: PlanUpdate, c: Category) returns (after: Option<Members>)
    requires !u.delete && Applied(codec, existing, u).Some? && PathsOf(c, u.paths) == []
    ensures IsReplaced(codec, c, PatchOf(u, c), StoredObject(existing, c), after)
    ensures IsKept(c, after, StoredObject(Applied(codec, existing, u).value, c))
  {
    UpdateOf(codec, existing, u);
    assert UpdatedAs(codec, existing, u, c);
    after := Updated(codec, u, c, StoredObject(existing, c)).members;
  }

  /** A category whose last entry in `set` is for the whole of it becomes what that entry says, whatever came before. */
  lemma WholeEntryDecides(codec: Codec, existing: Option<Categories>, u: PlanUpdate, c: Category, message: Json)
    returns (before: Option<Members>, after: Option<Members>)
    requires !u.delete && Applied(codec, existing, u).Some?
    requires PathsOf(c, u.paths) != [] && PathsOf(c, u.paths)[|PathsOf(c, u.paths)| - 1] == Setting(Whole(c), message)
    ensures IsReplaced(codec, c, message, before, after)
    ensures IsKept(c, after, StoredObject(Applied(codec, existing, u).value, c))
  {
    UpdateOf(codec, existing, u);
    assert UpdatedAs(codec, existing, u, c);
    var paths, start := PathsOf(c, u.paths), CategoryPatch(codec, c, PatchOf(u, c), StoredObject(existing, c)).members;
    before := ObjectAfter(codec, c, start, paths[..|paths| - 1]).members;
    after := Updated(codec, u, c, StoredObject(existing, c)).members;
  }

  function WithoutZero(c: Category, members: Option<Members>): Option<Members>
  {
    if !HasMode(c) && members == Some(map[]) then None else members
  }

  lemma DropZeroAt(cats: Categories, c: Category)
    ensures Lookup(DropZero(cats), c) == WithoutZero(c, Lookup(cats, c))
  {
  }

  /** No update leaves a plan without instructions behind. */
  lemma UpdatedIsNormal(codec: Codec, existing: Option<Categories>, u: PlanUpdate)
    requires Applied(codec, existing, u).Some? && Applied(codec, existing, u).value.Some?
    ensures Normal(Applied(codec, existing, u).value.value)
  {
  }

  // ----- field edits, for a decoder that treats each field by itself -----

  /** What decoding and encoding again makes of one field: its value may be normalised, dropped, or a default added. */
  type Norm = (nat, Option<nat>) -> Option<nat>

  ghost predicate DecodedAt(codec: Codec, c: Category, norm: Norm, m: Members, f: nat)
  {
    var decoded := codec.decodeMembers(c, m);
    decoded.Some? ==> MemberOf(decoded.value, f) == norm(f, MemberOf(m, f))
  }

  /** The decoder does so to every field alone, and doing it again changes nothing. */
  ghost predicate Fieldwise(codec: Codec, c: Category, norm: Norm)
  {
    && (forall m: Members, f: nat {:trigger DecodedAt(codec, c, norm, m, f)} :: DecodedAt(codec, c, norm, m, f))
    && (forall f: nat, v: Option<nat> :: norm(f, norm(f, v)) == norm(f, v))
  }

  ghost predicate FieldsOf(c: Category, paths: seq<Setting>)
  {
    forall i :: 0 <= i < |paths| ==> paths[i].path.Field? && paths[i].path.category == c
  }

  /** What the last entry for the field says: nothing, to remove it, or its value. */
  function LastSetting(paths: seq<Setting>, f: nat): Json
  {
    if paths == [] then Absent
    else if paths[|paths| - 1].path.Field? && paths[|paths| - 1].path.field == f then paths[|paths| - 1].value
    else LastSetting(paths[..|paths| - 1], f)
  }

  function MemberOf(m: Members, f: nat): Option<nat>
  {
    if f in m then Some(m[f]) else None
  }

  /** The member is that of the last entry, or the one there was before without any, as the decoder leaves it. */
  ghost predicate MergedAt(norm: Norm, before: Members, paths: seq<Setting>, after: Members, f: nat)
  {
    MemberOf(after, f) == norm(f, Intended(before, paths, f))
  }

  function Intended(before: Members, paths: seq<Setting>, f: nat): Option<nat>
  {
    match LastSetting(paths, f)
    case Absent => MemberOf(before, f)
    case Null => None
    case Given(v) => Some(v)
  }

  function Edited(setting: Setting, f: nat, otherwise: Option<nat>): Option<nat>
  {
    if !setting.path.Field? || setting.path.field != f then otherwise
    else if setting.value.Given? then Some(setting.value.raw)
    else None
  }

  lemma OneEdit(codec: Codec, c: Category, norm: Norm, setting: Setting, current: Option<Members>, f: nat)
    requires Fieldwise(codec, c, norm) && setting.path.Field? && setting.path.category == c
    requires FieldPatch(codec, c, setting.path.field, setting.value, current).Patched?
    ensures setting.value != Absent && FieldPatch(codec, c, setting.path.field, setting.value, current).members.Some?
    ensures var after := FieldPatch(codec, c, setting.path.field, setting.value, current).members.value;
      MemberOf(after, f) == norm(f, Edited(setting, f, MemberOf(MembersBefore(c, setting.path.field, current), f)))
  {
    var before := MembersBefore(c, setting.path.field, current);
    var merged := if setting.value == Null then before - {setting.path.field} else before[setting.path.field := setting.value.raw];
    assert DecodedAt(codec, c, norm, merged, f);
  }

  /**
   Any number of field edits that succeed: every field has the value of its last entry or is removed by it, the other
   members stay, all of it as the decoder leaves it; and a category with a mode that was absent starts out as custom unless
   its mode is edited first.
   */
  lemma {:induction false} FieldEdits(codec: Codec, c: Category, norm: Norm, current: Option<Members>, paths: seq<Setting>, f: nat)
    requires Fieldwise(codec, c, norm) && paths != [] && FieldsOf(c, paths)
    requires ObjectAfter(codec, c, current, paths).Patched?
    ensures ObjectAfter(codec, c, current, paths).members.Some?
    ensures MergedAt(norm, MembersBefore(c, paths[0].path.field, current), paths,
                     ObjectAfter(codec, c, current, paths).members.value, f)
  {
    var n := |paths| - 1;
    var before := MembersBefore(c, paths[0].path.field, current);
    OneEdit(codec, c, norm, paths[n], ObjectAfter(codec, c, current, paths[..n]).members, f);
    if n > 0 {
      FieldEdits(codec, c, norm, current, paths[..n], f);
      assert paths[..n][0] == paths[0];
    } else {
      assert paths[..n] == [];
      assert LastSetting(paths[..n], f) == Absent;
    }
    assert Intended(before, paths, f) == Edited(paths[n], f, Intended(before, paths[..n], f));
  }

  /** The entries of `set` act on what the member of the request has made of the category. */
  lemma EditsFollowMember(codec: Codec, existing: Option<Categories>, u: PlanUpdate, c: Category, norm: Norm, f: nat)
    returns (start: Option<Members>, after: Members)
    requires !u.delete && Applied(codec, existing, u).Some? && Fieldwise(codec, c, norm)
    requires PathsOf(c, u.paths) != [] && FieldsOf(c, PathsOf(c, u.paths))
    ensures IsReplaced(codec, c, PatchOf(u, c), StoredObject(existing, c), start)
    ensures MergedAt(norm, MembersBefore(c, PathsOf(c, u.paths)[0].path.field, start), PathsOf(c, u.paths), after, f)
    ensures IsKept(c, Some(after), StoredObject(Applied(codec, existing, u).value, c))
  {
    UpdateOf(codec, existing, u);
    assert UpdatedAs(codec, existing, u, c);
    start := CategoryPatch(codec, c, PatchOf(u, c), StoredObject(existing, c)).members;
    FieldEdits(codec, c, norm, start, PathsOf(c, u.paths), f);
    after := ObjectAfter(codec, c, start, PathsOf(c, u.paths)).members.value;
  }

  /** A category that was absent and has a mode is custom after edits of its other fields; one without a mode gets none. */
  lemma NewCategoryIsCustom(codec: Codec, c: Category, norm: Norm, paths: seq<Setting>)
    requires Fieldwise(codec, c, norm) && paths != [] && FieldsOf(c, paths)
    requires ObjectAfter(codec, c, None, paths).Patched? && forall i :: 0 <= i < |paths| ==> paths[i].path.field != MODE
    ensures ObjectAfter(codec, c, None, paths).members.Some?
    ensures MemberOf(ObjectAfter(codec, c, None, paths).members.value, MODE) ==
      norm(MODE, if c == Bid || c == BuilderApi || c == Reveal then Some(CUSTOM) else None)
  {
    FieldEdits(codec, c, norm, None, paths, MODE);
    NoSetting(paths, MODE);
  }

  lemma {:induction false} NoSetting(paths: seq<Setting>, f: nat)
    requires forall i :: 0 <= i < |paths| && paths[i].path.Field? ==> paths[i].path.field != f
    ensures LastSetting(paths, f) == Absent
  {
    if paths != [] {
      NoSetting(paths[..|paths| - 1], f);
    }
  }

  /** The object with one field edited. */
  ghost predicate IsEdited(before: Members, setting: Setting, merged: Members)
  {
    forall f: nat :: MemberOf(merged, f) == Edited(setting, f, MemberOf(before, f))
  }

  /** One edit of a field: null is refused for the mode, and otherwise the decoder decides on the edited object. */
  lemma EditSucceedsIff(codec: Codec, c: Category, field: nat, value: Json, current: Option<Members>, merged: Members)
    requires IsEdited(MembersBefore(c, field, current), Setting(Field(c, field), value), merged)
    ensures FieldPatch(codec, c, field, value, current).Patched? <==>
      value != Absent && !(value == Null && field == MODE) && codec.decodeMembers(c, merged).Some?
  {
    var before := MembersBefore(c, field, current);
    if value != Absent {
      var edited := if value == Null then before - {field} else before[field := value.raw];
      forall f: nat
        ensures MemberOf(edited, f) == MemberOf(merged, f)
      {
        assert MemberOf(merged, f) == Edited(Setting(Field(c, field), value), f, MemberOf(before, f));
      }
      SameObject(edited, merged);
    }
  }

  lemma SameObject(a: Members, b: Members)
    requires forall f: nat :: MemberOf(a, f) == MemberOf(b, f)
    ensures a == b
  {
    assert forall f :: f in a <==> MemberOf(a, f).Some?;
    assert forall f :: f in b <==> MemberOf(b, f).Some?;
    assert a.Keys == b.Keys;
  }
}
