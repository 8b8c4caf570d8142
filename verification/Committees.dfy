/**
 Attester committees of one epoch (pkg/chain/duties.go): the unshuffled list of
 active validators, cut into slotsPerEpoch * committeesPerSlot slices.
 */
module Committees {
  import opened Common
  import opened Arith
  import opened Bytes
  import opened Shuffle

  datatype ChainSpec = ChainSpec(
    slotsPerEpoch: nat,
    targetCommitteeSize: nat,
    maxCommitteesPerSlot: nat,
    shuffleRoundCount: nat)

  type Duties = seq<seq<seq<nat>>> // slot in epoch -> committee -> members

  predicate ValidSpec(spec: ChainSpec)
  {
    spec.slotsPerEpoch > 0 && spec.targetCommitteeSize > 0
  }

  function SplitOffset(listSize: nat, chunks: nat, index: nat): nat
    requires chunks > 0
  {
    (listSize * index % TWO_TO_64) / chunks
  }

  function SlotCommitteeCount(spec: ChainSpec, activeCount: nat): nat
    requires ValidSpec(spec)
  {
    var perSlot := activeCount / spec.slotsPerEpoch / spec.targetCommitteeSize;
    if perSlot > spec.maxCommitteesPerSlot then spec.maxCommitteesPerSlot
    else if perSlot == 0 then 1
    else perSlot
  }

  /** The number of committees per slot by inequalities; without a cap of at least 1 there is one, or none if one is full. */
  predicate IsCommitteeCount(spec: ChainSpec, n: nat, count: nat)
  {
    if spec.maxCommitteesPerSlot == 0 then count == if n < spec.slotsPerEpoch * spec.targetCommitteeSize then 1 else 0
    else
      && 1 <= count <= spec.maxCommitteesPerSlot
      && (count > 1 ==> n >= spec.slotsPerEpoch * count * spec.targetCommitteeSize)
      && (count < spec.maxCommitteesPerSlot ==> n < spec.slotsPerEpoch * (count + 1) * spec.targetCommitteeSize)
  }

  /** All arithmetic of the duties stays within 64 bits. */
  predicate NoOverflow(spec: ChainSpec, n: nat)
    requires ValidSpec(spec)
  {
    && SlotCommitteeCount(spec, n) * spec.slotsPerEpoch < TWO_TO_64
    && n * (SlotCommitteeCount(spec, n) * spec.slotsPerEpoch) < TWO_TO_64
  }

  // ----- the reference: compute_committee of the consensus specification -----

  function Offset(n: nat, count: nat, index: nat): (o: nat)
    requires index <= count && count > 0
    ensures o <= n
  {
    DivMonotone(n * index, n * count, count);
    DivModUnique(n * count, count, n, 0);
    n * index / count
  }

  function ComputeCommittee(h: HashFn, seed: Bytes32, rounds: nat, n: nat, index: nat, count: nat): seq<nat>
    requires rounds < 256 && index < count
  {
    OffsetsInOrder(n, count, index, index + 1);
    var start, end := Offset(n, count, index), Offset(n, count, index + 1);
    seq<nat>(end - start, i requires 0 <= i < end - start => ComputeShuffledIndex(h, seed, rounds, n, start + i))
  }

  /** The validators 0..n-1 in shuffled order. */
  ghost function ShuffledValidators(h: HashFn, seed: Bytes32, rounds: nat, n: nat): (s: seq<nat>)
    requires rounds < 256
    ensures |s| == n
  {
    seq(n, i requires 0 <= i < n => ComputeShuffledIndex(h, seed, rounds, n, i))
  }

  /** The duties are, slot by slot, the committees of the consensus specification. */
  ghost predicate IsDuties(h: HashFn, spec: ChainSpec, n: nat, seed: Bytes32, duties: Duties)
    requires ValidSpec(spec)
  {
    && |duties| == spec.slotsPerEpoch
    && forall s :: 0 <= s < spec.slotsPerEpoch ==> IsSlot(h, spec, n, seed, s, duties[s])
  }

  ghost predicate IsSlot(h: HashFn, spec: ChainSpec, n: nat, seed: Bytes32, s: nat, committees: seq<seq<nat>>)
    requires ValidSpec(spec)
  {
    var perSlot := SlotCommitteeCount(spec, n);
    && |committees| == perSlot
    && forall c :: 0 <= c < perSlot ==>
      IsCommittee(h, spec.shuffleRoundCount % 256, n, seed, c + s * perSlot, perSlot * spec.slotsPerEpoch, committees[c])
  }

  ghost predicate IsCommittee(h: HashFn, rounds: nat, n: nat, seed: Bytes32, index: nat, count: nat, members: seq<nat>)
    requires rounds < 256
  {
    index < count && members == ComputeCommittee(h, seed, rounds, n, index, count)
  }

  // ----- arithmetic of the split -----

  lemma OffsetsInOrder(n: nat, count: nat, i: nat, j: nat)
    requires i <= j <= count && count > 0
    ensures Offset(n, count, 0) == 0 && Offset(n, count, count) == n
    ensures Offset(n, count, i) <= Offset(n, count, j)
  {
    assert n * i <= n * j;
    DivMonotone(n * i, n * j, count);
    DivModUnique(n * 0, count, 0, 0);
    DivModUnique(n * count, count, n, 0);
  }

  lemma SplitIsExact(n: nat, count: nat, index: nat)
    requires 0 <= index <= count && count > 0 && n * count < TWO_TO_64
    ensures SplitOffset(n, count, index) == Offset(n, count, index)
  {
    assert n * index <= n * count;
  }

  /** As many full committees of the target size as every slot can have, at least one and at most the cap. */
  lemma SlotCommitteeCountIs(spec: ChainSpec, n: nat)
    requires ValidSpec(spec)
    ensures IsCommitteeCount(spec, n, SlotCommitteeCount(spec, n))
  {
    var perSlot := n / spec.slotsPerEpoch / spec.targetCommitteeSize;
    QuotientBounds(n, spec.slotsPerEpoch);
    QuotientBounds(n / spec.slotsPerEpoch, spec.targetCommitteeSize);
    BoundsMultiplied(n, spec.slotsPerEpoch, spec.targetCommitteeSize, n / spec.slotsPerEpoch, perSlot);
    if perSlot > spec.maxCommitteesPerSlot > 0 {
      CountsInOrder(spec.slotsPerEpoch, spec.targetCommitteeSize, spec.maxCommitteesPerSlot, perSlot);
    } else if perSlot > 0 {
      CountsInOrder(spec.slotsPerEpoch, spec.targetCommitteeSize, 1, perSlot);
    } else {
      CountsInOrder(spec.slotsPerEpoch, spec.targetCommitteeSize, 1, 2);
    }
  }

  lemma CountsInOrder(slots: nat, target: nat, a: nat, b: nat)
    requires a <= b
    ensures slots * a * target <= slots * b * target
    ensures slots * 1 * target == slots * target
  {
    assert slots * a <= slots * b;
  }

  lemma BoundsMultiplied(n: nat, slots: nat, target: nat, each: nat, q: nat)
    requires slots * each <= n < slots * (each + 1) && target * q <= each < target * (q + 1)
    ensures slots * q * target <= n < slots * (q + 1) * target
  {
    MulInOrder(slots, target * q, each);
    MulInOrder(slots, each + 1, target * (q + 1));
    Reordered(slots, target, q);
    Reordered(slots, target, q + 1);
  }

  lemma Reordered(a: nat, b: nat, c: nat)
    ensures a * (b * c) == a * c * b
  {
  }

  lemma MulInOrder(m: nat, a: nat, b: nat)
    requires a <= b
    ensures m * a <= m * b
  {
  }

  lemma FlatIndex(s: nat, c: nat, slots: nat, perSlot: nat)
    requires s < slots && c < perSlot
    ensures 0 <= c + s * perSlot < perSlot * slots
    ensures (c + s * perSlot) / perSlot == s && (c + s * perSlot) % perSlot == c
  {
    assert s * perSlot + perSlot == (s + 1) * perSlot <= slots * perSlot;
    DivModUnique(c + s * perSlot, perSlot, s, c);
  }

  lemma FlatIndexOnto(index: nat, slots: nat, perSlot: nat)
    requires index < perSlot * slots && perSlot > 0
    ensures index / perSlot < slots && index % perSlot < perSlot
    ensures index == index % perSlot + index / perSlot * perSlot
  {
    var d := index / perSlot - slots;
    assert perSlot * d == perSlot * (index / perSlot) - perSlot * slots;
    MulAtLeast(perSlot, d);
    assert index == perSlot * (index / perSlot) + index % perSlot;
  }

  // ----- the computation -----

  /** The list 0..n-1 after unshuffleList. */
  method UnshuffledValidators(h: HashFn, spec: ChainSpec, n: nat, seed: Bytes32) returns (list: seq<nat>)
    requires n <= TWO_TO_32
    ensures list == ShuffledValidators(h, seed, spec.shuffleRoundCount % 256, n)
  {
    var shuffledIndices := new nat[n](i => i);
    assert shuffledIndices[..] == seq(n, i => i);
    var ok := InnerShuffleList(h, spec.shuffleRoundCount, shuffledIndices, seed, false);
    return shuffledIndices[..];
  }

  method GetAttesterDuties(h: HashFn, spec: ChainSpec, validatorCount: nat, seed: Bytes32) returns (duties: Option<Duties>)
    requires ValidSpec(spec)
    requires validatorCount <= TWO_TO_32 && NoOverflow(spec, validatorCount)
    ensures duties.Some?
    ensures IsDuties(h, spec, validatorCount, seed, duties.value)
    ensures forall s :: 0 <= s < |duties.value| ==> IsCommitteeCount(spec, validatorCount, |duties.value[s]|)
  {
    var shuffled := UnshuffledValidators(h, spec, validatorCount, seed);
    var attesterDuties: Duties := [];
    for slotIndex := 0 to spec.slotsPerEpoch
      invariant |attesterDuties| == slotIndex
      invariant forall s :: 0 <= s < slotIndex ==> IsSlot(h, spec, validatorCount, seed, s, attesterDuties[s])
    {
      var committees := SlotCommittees(h, spec, validatorCount, seed, shuffled, slotIndex);
      if committees.None? {
        return None;
      }
      attesterDuties := attesterDuties + [committees.value];
    }
    SlotCommitteeCountIs(spec, validatorCount);
    return Some(attesterDuties);
  }

  /** The inner loop: the committees of one slot. */
  method SlotCommittees(h: HashFn, spec: ChainSpec, n: nat, seed: Bytes32, shuffled: seq<nat>, slotIndex: nat)
    returns (committees: Option<seq<seq<nat>>>)
    requires ValidSpec(spec) && NoOverflow(spec, n) && slotIndex < spec.slotsPerEpoch
    requires shuffled == ShuffledValidators(h, seed, spec.shuffleRoundCount % 256, n)
    ensures committees.Some? && IsSlot(h, spec, n, seed, slotIndex, committees.value)
  {
    var perSlot := SlotCommitteeCount(spec, n);
    var count := perSlot * spec.slotsPerEpoch;
    var list: seq<seq<nat>> := [];
    for committeeIndex := 0 to perSlot
      invariant |list| == committeeIndex
      invariant forall c :: 0 <= c < committeeIndex ==>
        IsCommittee(h, spec.shuffleRoundCount % 256, n, seed, c + slotIndex * perSlot, count, list[c])
    {
      var indexOffset := committeeIndex + slotIndex * perSlot;
      FlatIndex(slotIndex, committeeIndex, spec.slotsPerEpoch, perSlot);
      CommitteeIsSlice(h, seed, spec.shuffleRoundCount % 256, n, indexOffset, count);
      SplitIsExact(n, count, indexOffset);
      SplitIsExact(n, count, indexOffset + 1);
      var start := SplitOffset(n, count, indexOffset);
      var end := SplitOffset(n, count, indexOffset + 1);
      if start > n || end > n {
        return None;
      }
      list := list + [shuffled[start..end]];
    }
    return Some(list);
  }

  lemma CommitteeIsSlice(h: HashFn, seed: Bytes32, rounds: nat, n: nat, index: nat, count: nat)
    requires rounds < 256 && index < count
    ensures Offset(n, count, index) <= Offset(n, count, index + 1)
    ensures ComputeCommittee(h, seed, rounds, n, index, count)
         == ShuffledValidators(h, seed, rounds, n)[Offset(n, count, index)..Offset(n, count, index + 1)]
  {
    OffsetsInOrder(n, count, index, index + 1);
  }

  // ----- what the committees are for -----

  /** Committee sizes differ by at most one. */
  lemma CommitteeSizes(h: HashFn, seed: Bytes32, rounds: nat, n: nat, index: nat, count: nat)
    requires rounds < 256 && index < count
    ensures n / count <= |ComputeCommittee(h, seed, rounds, n, index, count)| <= n / count + 1
  {
    OffsetsInOrder(n, count, index, index + 1);
    assert n * (index + 1) == n * index + n;
    DivOfSum(n * index, n, count);
  }

  lemma DivOfSum(a: nat, b: nat, d: nat)
    requires d > 0
    ensures a / d + b / d <= (a + b) / d <= a / d + b / d + 1
  {
    var r := a % d + b % d;
    assert a == d * (a / d) + a % d && b == d * (b / d) + b % d;
    assert a + b == d * (a / d + b / d) + r;
    if r < d {
      DivModUnique(a + b, d, a / d + b / d, r);
    } else {
      assert a + b == d * (a / d + b / d + 1) + (r - d);
      DivModUnique(a + b, d, a / d + b / d + 1, r - d);
    }
  }

  /** The slice that holds place p of the shuffled list. */
  lemma {:induction false} HolderOf(n: nat, count: nat, upTo: nat, p: nat) returns (index: nat)
    requires upTo <= count && count > 0 && p < Offset(n, count, upTo)
    ensures index < upTo && Offset(n, count, index) <= p < Offset(n, count, index + 1)
  {
    OffsetsInOrder(n, count, 0, upTo);
    if Offset(n, count, upTo - 1) <= p {
      index := upTo - 1;
    } else {
      index := HolderOf(n, count, upTo - 1, p);
    }
  }

  lemma HolderUnique(n: nat, count: nat, p: nat, i: nat, j: nat)
    requires i < count && j < count
    requires Offset(n, count, i) <= p < Offset(n, count, i + 1)
    requires Offset(n, count, j) <= p < Offset(n, count, j + 1)
    ensures i == j
  {
    if i < j {
      OffsetsInOrder(n, count, i + 1, j);
      BelowStart(p, Offset(n, count, i + 1), Offset(n, count, j));
    } else if j < i {
      OffsetsInOrder(n, count, j + 1, i);
      BelowStart(p, Offset(n, count, j + 1), Offset(n, count, i));
    }
  }

  lemma BelowStart(p: nat, end: nat, start: nat)
    requires p < end <= start
    ensures p < start
  {
  }

  ghost predicate Assigned(duties: Duties, v: nat, s: int, c: int, k: int)
  {
    0 <= s < |duties| && 0 <= c < |duties[s]| && 0 <= k < |duties[s][c]| && duties[s][c][k] == v
  }

  /** Place k of committee `index` is place p of the shuffled list, the one that the inverse index map names. */
  lemma PlaceOf(h: HashFn, seed: Bytes32, rounds: nat, n: nat, index: nat, count: nat, v: nat, k: nat) returns (p: nat)
    requires rounds < 256 && index < count && v < n
    requires k < |ComputeCommittee(h, seed, rounds, n, index, count)|
    requires ComputeCommittee(h, seed, rounds, n, index, count)[k] == v
    ensures p == Offset(n, count, index) + k < Offset(n, count, index + 1)
    ensures p == IndexBack(h, seed, rounds, n, v)
  {
    CommitteeIsSlice(h, seed, rounds, n, index, count);
    p := PlaceInSlice(h, seed, rounds, n, Offset(n, count, index), Offset(n, count, index + 1), v, k);
  }

  lemma PlaceInSlice(h: HashFn, seed: Bytes32, rounds: nat, n: nat, start: nat, end: nat, v: nat, k: nat) returns (p: nat)
    requires rounds < 256 && start + k < end <= n && v < n
    requires ShuffledValidators(h, seed, rounds, n)[start..end][k] == v
    ensures p == start + k && p == IndexBack(h, seed, rounds, n, v)
  {
    p := start + k;
    InverseOf(h, seed, rounds, n, p, v);
  }

  /** Conversely, the committee and the place in it of validator v. */
  lemma CommitteeOf(h: HashFn, seed: Bytes32, rounds: nat, n: nat, count: nat, v: nat) returns (index: nat, k: nat)
    requires rounds < 256 && 0 < count && v < n
    ensures index < count && k < |ComputeCommittee(h, seed, rounds, n, index, count)|
    ensures ComputeCommittee(h, seed, rounds, n, index, count)[k] == v
  {
    var p := IndexBack(h, seed, rounds, n, v);
    ShuffledIndexBijective(h, seed, rounds, n, v);
    OffsetsInOrder(n, count, 0, count);
    index := HolderOf(n, count, count, p);
    k := SeatAtPlace(h, seed, rounds, n, index, count, p);
  }

  lemma SeatAtPlace(h: HashFn, seed: Bytes32, rounds: nat, n: nat, index: nat, count: nat, p: nat) returns (k: nat)
    requires rounds < 256 && index < count && p < n && Offset(n, count, index) <= p < Offset(n, count, index + 1)
    ensures k < |ComputeCommittee(h, seed, rounds, n, index, count)|
    ensures ComputeCommittee(h, seed, rounds, n, index, count)[k] == ComputeShuffledIndex(h, seed, rounds, n, p)
  {
    CommitteeIsSlice(h, seed, rounds, n, index, count);
    k := p - Offset(n, count, index);
  }

  /** The committees of all slots are numbered through. */
  lemma NumberedCommittee(h: HashFn, spec: ChainSpec, n: nat, seed: Bytes32, duties: Duties, index: nat, count: nat)
    returns (s: nat, c: nat)
    requires ValidSpec(spec) && IsDuties(h, spec, n, seed, duties) && SlotCommitteeCount(spec, n) > 0
    requires count == SlotCommitteeCount(spec, n) * spec.slotsPerEpoch && index < count
    ensures s < |duties| && c < |duties[s]|
    ensures IsCommittee(h, spec.shuffleRoundCount % 256, n, seed, index, count, duties[s][c])
  {
    var perSlot := SlotCommitteeCount(spec, n);
    FlatIndexOnto(index, spec.slotsPerEpoch, perSlot);
    s, c := index / perSlot, index % perSlot;
    assert IsSlot(h, spec, n, seed, s, duties[s]);
    SlotHas(h, spec, n, seed, s, duties[s], c);
  }

  lemma SlotHas(h: HashFn, spec: ChainSpec, n: nat, seed: Bytes32, s: nat, committees: seq<seq<nat>>, c: nat)
    requires ValidSpec(spec) && IsSlot(h, spec, n, seed, s, committees) && c < SlotCommitteeCount(spec, n)
    ensures c < |committees|
    ensures IsCommittee(h, spec.shuffleRoundCount % 256, n, seed, c + s * SlotCommitteeCount(spec, n),
                        SlotCommitteeCount(spec, n) * spec.slotsPerEpoch, committees[c])
  {
  }

  lemma SomeCommittee(h: HashFn, spec: ChainSpec, n: nat, seed: Bytes32, duties: Duties, v: nat, count: nat)
    returns (s: nat, c: nat, k: nat)
    requires ValidSpec(spec) && IsDuties(h, spec, n, seed, duties) && v < n && SlotCommitteeCount(spec, n) > 0
    requires count == SlotCommitteeCount(spec, n) * spec.slotsPerEpoch && count > 0
    ensures Assigned(duties, v, s, c, k)
  {
    var index: nat;
    index, k := CommitteeOf(h, seed, spec.shuffleRoundCount % 256, n, count, v);
    s, c := NumberedCommittee(h, spec, n, seed, duties, index, count);
    AssignedIn(h, spec.shuffleRoundCount % 256, n, seed, index, count, duties, v, s, c, k);
  }

  lemma AssignedIn(h: HashFn, rounds: nat, n: nat, seed: Bytes32, index: nat, count: nat, duties: Duties, v: nat,
                   s: nat, c: nat, k: nat)
    requires rounds < 256 && s < |duties| && c < |duties[s]|
    requires IsCommittee(h, rounds, n, seed, index, count, duties[s][c])
    requires k < |ComputeCommittee(h, seed, rounds, n, index, count)|
    requires ComputeCommittee(h, seed, rounds, n, index, count)[k] == v
    ensures Assigned(duties, v, s, c, k)
  {
  }

  /** Two committees of the same split that both seat v are the same committee, and the seat is the same. */
  lemma SameSeat(h: HashFn, seed: Bytes32, rounds: nat, n: nat, count: nat, v: nat,
                 i: nat, members: seq<nat>, k: nat, i': nat, members': seq<nat>, k': nat)
    requires rounds < 256 && v < n
    requires IsCommittee(h, rounds, n, seed, i, count, members) && k < |members| && members[k] == v
    requires IsCommittee(h, rounds, n, seed, i', count, members') && k' < |members'| && members'[k'] == v
    ensures i == i' && k == k'
  {
    var p := PlaceOf(h, seed, rounds, n, i, count, v, k);
    var p' := PlaceOf(h, seed, rounds, n, i', count, v, k');
    HolderUnique(n, count, p, i, i');
  }

  /** Committee c of slot s is number index of the epoch. */
  predicate NumberIs(index: nat, perSlot: nat, s: nat, c: nat)
  {
    perSlot > 0 && index / perSlot == s && index % perSlot == c
  }

  lemma CommitteeAt(h: HashFn, spec: ChainSpec, n: nat, seed: Bytes32, duties: Duties, s: nat, c: nat, perSlot: nat, count: nat)
    returns (index: nat)
    requires ValidSpec(spec) && IsDuties(h, spec, n, seed, duties) && s < |duties| && c < |duties[s]|
    requires perSlot == SlotCommitteeCount(spec, n) && count == perSlot * spec.slotsPerEpoch
    ensures NumberIs(index, perSlot, s, c)
    ensures IsCommittee(h, spec.shuffleRoundCount % 256, n, seed, index, count, duties[s][c])
  {
    assert IsSlot(h, spec, n, seed, s, duties[s]);
    FlatIndex(s, c, spec.slotsPerEpoch, perSlot);
    index := c + s * perSlot;
  }

  lemma OneNumber(index: nat, perSlot: nat, s: nat, c: nat, s': nat, c': nat)
    requires NumberIs(index, perSlot, s, c) && NumberIs(index, perSlot, s', c')
    ensures s == s' && c == c'
  {
  }

  lemma OneCommittee(h: HashFn, spec: ChainSpec, n: nat, seed: Bytes32, duties: Duties, v: nat, perSlot: nat, count: nat,
                     s: nat, c: nat, k: nat, s': nat, c': nat, k': nat)
    requires ValidSpec(spec) && IsDuties(h, spec, n, seed, duties) && v < n
    requires perSlot == SlotCommitteeCount(spec, n) && count == perSlot * spec.slotsPerEpoch
    requires Assigned(duties, v, s, c, k) && Assigned(duties, v, s', c', k')
    ensures s == s' && c == c' && k == k'
  {
    var index := CommitteeAt(h, spec, n, seed, duties, s, c, perSlot, count);
    var index' := CommitteeAt(h, spec, n, seed, duties, s', c', perSlot, count);
    SameSeat(h, seed, spec.shuffleRoundCount % 256, n, count, v, index, duties[s][c], k, index', duties[s'][c'], k');
    OneNumber(index, perSlot, s, c, s', c');
  }

  /**
   Every active validator sits in exactly one committee of the epoch, at one place in it,
   if and only if a slot has any committee at all.
   */
  lemma InExactlyOneCommittee(h: HashFn, spec: ChainSpec, n: nat, seed: Bytes32, duties: Duties, v: nat)
    requires ValidSpec(spec) && IsDuties(h, spec, n, seed, duties) && v < n
    ensures spec.maxCommitteesPerSlot > 0 || n < spec.slotsPerEpoch * spec.targetCommitteeSize <==>
      exists s, c, k :: Assigned(duties, v, s, c, k)
    ensures forall s, c, k, s', c', k' :: Assigned(duties, v, s, c, k) && Assigned(duties, v, s', c', k') ==>
      s == s' && c == c' && k == k'
  {
    var perSlot := SlotCommitteeCount(spec, n);
    var count := perSlot * spec.slotsPerEpoch;
    SlotCommitteeCountIs(spec, n);
    if perSlot > 0 {
      MulAtLeast(perSlot, spec.slotsPerEpoch);
      var s, c, k := SomeCommittee(h, spec, n, seed, duties, v, count);
    } else {
      assert forall s :: 0 <= s < |duties| ==> IsSlot(h, spec, n, seed, s, duties[s]);
    }
    forall s, c, k, s', c', k' | Assigned(duties, v, s, c, k) && Assigned(duties, v, s', c', k')
      ensures s == s' && c == c' && k == k'
    {
      OneCommittee(h, spec, n, seed, duties, v, perSlot, count, s, c, k, s', c', k');
    }
  }

  /** The first `index` committees laid end to end. */
  ghost function FirstCommittees(h: HashFn, seed: Bytes32, rounds: nat, n: nat, index: nat, count: nat): seq<nat>
    requires rounds < 256 && 0 < count && index <= count
  {
    if index == 0 then []
    else FirstCommittees(h, seed, rounds, n, index - 1, count) + ComputeCommittee(h, seed, rounds, n, index - 1, count)
  }

  /** The committees tile the shuffled list: nothing lost, nothing repeated, in order. */
  lemma {:induction false} CommitteesTile(h: HashFn, seed: Bytes32, rounds: nat, n: nat, index: nat, count: nat)
    requires rounds < 256 && 0 < count && index <= count
    ensures FirstCommittees(h, seed, rounds, n, index, count) == ShuffledValidators(h, seed, rounds, n)[..Offset(n, count, index)]
    ensures index == count ==> FirstCommittees(h, seed, rounds, n, index, count) == ShuffledValidators(h, seed, rounds, n)
  {
    var list := ShuffledValidators(h, seed, rounds, n);
    OffsetsInOrder(n, count, index, index);
    if index > 0 {
      CommitteesTile(h, seed, rounds, n, index - 1, count);
      CommitteeIsSlice(h, seed, rounds, n, index - 1, count);
      SliceAfterSlice(list, Offset(n, count, index - 1), Offset(n, count, index));
    }
    assert list[..|list|] == list;
  }

  lemma SliceAfterSlice<T>(s: seq<T>, a: nat, b: nat)
    requires a <= b <= |s|
    ensures s[..a] + s[a..b] == s[..b]
  {
  }

  // ----- the duties as one list -----

  /** These are the first committees of the epoch, by number. */
  ghost predicate AreFirst(h: HashFn, spec: ChainSpec, n: nat, seed: Bytes32, count: nat, committees: seq<seq<nat>>)
  {
    |committees| <= count && forall k :: 0 <= k < |committees| ==>
      IsCommittee(h, spec.shuffleRoundCount % 256, n, seed, k, count, committees[k])
  }

  lemma {:induction false} FlatOfFirst(h: HashFn, spec: ChainSpec, n: nat, seed: Bytes32, count: nat, committees: seq<seq<nat>>)
    requires count > 0 && AreFirst(h, spec, n, seed, count, committees)
    ensures Flat(committees) == FirstCommittees(h, seed, spec.shuffleRoundCount % 256, n, |committees|, count)
  {
    if committees != [] {
      FlatOfFirst(h, spec, n, seed, count, committees[..|committees| - 1]);
    }
  }

  lemma {:induction false} SlotsAreFirst(h: HashFn, spec: ChainSpec, n: nat, seed: Bytes32, duties: Duties, slots: nat,
                                         perSlot: nat, count: nat)
    requires ValidSpec(spec) && IsDuties(h, spec, n, seed, duties) && slots <= |duties|
    requires perSlot == SlotCommitteeCount(spec, n) && count == perSlot * spec.slotsPerEpoch
    ensures |Flat(duties[..slots])| == slots * perSlot && AreFirst(h, spec, n, seed, count, Flat(duties[..slots]))
  {
    if slots > 0 {
      var s := slots - 1;
      SlotsAreFirst(h, spec, n, seed, duties, s, perSlot, count);
      assert duties[..slots][..s] == duties[..s];
      SlotAppended(h, spec, n, seed, duties, s, perSlot, count, Flat(duties[..s]));
    } else {
      assert Flat(duties[..0]) == [];
    }
  }

  lemma SlotAppended(h: HashFn, spec: ChainSpec, n: nat, seed: Bytes32, duties: Duties, s: nat, perSlot: nat, count: nat,
                     before: seq<seq<nat>>)
    requires ValidSpec(spec) && IsDuties(h, spec, n, seed, duties) && s < |duties|
    requires perSlot == SlotCommitteeCount(spec, n) && count == perSlot * spec.slotsPerEpoch
    requires |before| == s * perSlot && AreFirst(h, spec, n, seed, count, before)
    ensures |before + duties[s]| == (s + 1) * perSlot && AreFirst(h, spec, n, seed, count, before + duties[s])
  {
    var all := before + duties[s];
    assert IsSlot(h, spec, n, seed, s, duties[s]);
    assert (s + 1) * perSlot == s * perSlot + perSlot;
    MulInOrder(perSlot, s + 1, spec.slotsPerEpoch);
    forall k | s * perSlot <= k < |all|
      ensures IsCommittee(h, spec.shuffleRoundCount % 256, n, seed, k, count, all[k])
    {
      SlotHas(h, spec, n, seed, s, duties[s], k - s * perSlot);
      assert all[k] == duties[s][k - s * perSlot];
    }
  }

  /** All committees, slot after slot, are the shuffled list: in slot order, and nothing in between. */
  lemma DutiesTile(h: HashFn, spec: ChainSpec, n: nat, seed: Bytes32, duties: Duties)
    requires ValidSpec(spec) && IsDuties(h, spec, n, seed, duties)
    requires spec.maxCommitteesPerSlot > 0 || n < spec.slotsPerEpoch * spec.targetCommitteeSize
    ensures Flat(Flat(duties)) == ShuffledValidators(h, seed, spec.shuffleRoundCount % 256, n)
  {
    var perSlot := SlotCommitteeCount(spec, n);
    var count := perSlot * spec.slotsPerEpoch;
    SlotCommitteeCountIs(spec, n);
    MulAtLeast(perSlot, spec.slotsPerEpoch);
    assert duties[..|duties|] == duties;
    SlotsAreFirst(h, spec, n, seed, duties, |duties|, perSlot, count);
    FlatOfFirst(h, spec, n, seed, count, Flat(duties));
    CommitteesTile(h, seed, spec.shuffleRoundCount % 256, n, count, count);
  }
}
