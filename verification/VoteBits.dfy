/** Bitmaps over committee positions and the committee layout they refer to (pkg/chain/headvotes.go). */
module VoteBits {
  import opened Common
  import opened Committees
  import opened Arith
  import Bytes
  import Shuffle

  // ----- one byte -----

  /** 1 << k */
  function Mask(k: nat): bv8
    requires k < 8
  {
    if k == 0 then 1 else if k == 1 then 2 else if k == 2 then 4 else if k == 3 then 8
    else if k == 4 then 16 else if k == 5 then 32 else if k == 6 then 64 else 128
  }

  predicate Has(b: bv8, k: nat)
    requires k < 8
  {
    b & Mask(k) != 0
  }

  /** Position k of a byte is its k-th bit from the least significant one on, as SSZ orders them. */
  lemma MasksDouble(k: nat)
    requires k < 7
    ensures Mask(0) == 1 && Mask(k + 1) == Mask(k) << 1
  {
  }

  lemma HasOr(a: bv8, b: bv8, k: nat)
    requires k < 8
    ensures Has(a | b, k) <==> Has(a, k) || Has(b, k)
    ensures Has(a & b, k) <==> Has(a, k) && Has(b, k)
  {
  }

  lemma HasMask(j: nat, k: nat)
    requires j < 8 && k < 8
    ensures Has(Mask(j), k) <==> j == k
  {
  }

  lemma SameBits(a: bv8, b: bv8)
    requires forall k: nat :: k < 8 ==> (Has(a, k) <==> Has(b, k))
    ensures a == b
  {
    assert Has(a, 0) == Has(b, 0) && Has(a, 1) == Has(b, 1) && Has(a, 2) == Has(b, 2) && Has(a, 3) == Has(b, 3);
    assert Has(a, 4) == Has(b, 4) && Has(a, 5) == Has(b, 5) && Has(a, 6) == Has(b, 6) && Has(a, 7) == Has(b, 7);
  }

  /** How many of the low k bits are set; bits.OnesCount8 for k = 8. */
  function Ones(b: bv8, k: nat): nat
    requires k <= 8
  {
    if k == 0 then 0 else Ones(b, k - 1) + if Has(b, k - 1) then 1 else 0
  }

  // ----- bitmaps -----

  predicate IsBitSet(data: seq<bv8>, pos: nat)
  {
    pos / 8 < |data| && Has(data[pos / 8], pos % 8)
  }

  function SetBit(data: seq<bv8>, pos: nat): (r: seq<bv8>)
    ensures |r| == |data|
  {
    if pos / 8 >= |data| then data else data[pos / 8 := data[pos / 8] | Mask(pos % 8)]
  }

  /** The positions held by the low k bits of the byte that starts at position base. */
  ghost function ByteMembers(b: bv8, base: nat, k: nat): set<nat>
    requires k <= 8
  {
    if k == 0 then {} else ByteMembers(b, base, k - 1) + if Has(b, k - 1) then {base + k - 1} else {}
  }

  lemma {:induction false} ByteMember(b: bv8, base: nat, k: nat, p: nat)
    requires k <= 8
    ensures p in ByteMembers(b, base, k) <==> base <= p < base + k && Has(b, p - base)
  {
    if k > 0 {
      ByteMember(b, base, k - 1, p);
    }
  }

  /** The positions that a bitmap holds. */
  ghost function Members(data: seq<bv8>): set<nat>
  {
    if data == [] then {} else Members(data[..|data| - 1]) + ByteMembers(data[|data| - 1], 8 * (|data| - 1), 8)
  }

  lemma {:induction false} InMembers(data: seq<bv8>, p: nat)
    ensures p in Members(data) <==> IsBitSet(data, p)
  {
    if data != [] {
      var n := |data| - 1;
      InMembers(data[..n], p);
      ByteMember(data[n], 8 * n, 8, p);
      if 8 * n <= p < 8 * n + 8 {
        DivModUnique(p, 8, n, p - 8 * n);
      }
    }
  }

  lemma BitOfSetBit(data: seq<bv8>, pos: nat, p: nat)
    requires pos < 8 * |data|
    ensures IsBitSet(SetBit(data, pos), p) <==> IsBitSet(data, p) || p == pos
  {
    if p / 8 == pos / 8 {
      HasOr(data[pos / 8], Mask(pos % 8), p % 8);
      HasMask(pos % 8, p % 8);
    }
  }

  lemma MembersOfSetBit(data: seq<bv8>, pos: nat)
    requires pos < 8 * |data|
    ensures Members(SetBit(data, pos)) == Members(data) + {pos}
  {
    var data' := SetBit(data, pos);
    forall p: nat
      ensures p in Members(data') <==> p in Members(data) || p == pos
    {
      MemberOfSetBit(data, pos, p);
    }
  }

  lemma MemberOfSetBit(data: seq<bv8>, pos: nat, p: nat)
    requires pos < 8 * |data|
    ensures p in Members(SetBit(data, pos)) <==> p in Members(data) || p == pos
  {
    BitOfSetBit(data, pos, p);
    InMembers(data, p);
    InMembers(SetBit(data, pos), p);
  }

  lemma SameMembers(a: seq<bv8>, b: seq<bv8>)
    requires |a| == |b| && Members(a) == Members(b)
    ensures a == b
  {
    forall i | 0 <= i < |a|
      ensures a[i] == b[i]
    {
      forall k: nat | k < 8
        ensures Has(a[i], k) <==> Has(b[i], k)
      {
        DivModUnique(8 * i + k, 8, i, k);
        InMembers(a, 8 * i + k);
        InMembers(b, 8 * i + k);
      }
      SameBits(a[i], b[i]);
    }
  }

  function AndBits(a: seq<bv8>, b: seq<bv8>): seq<bv8>
  {
    seq(if |a| < |b| then |a| else |b|, i requires 0 <= i < |a| && i < |b| => a[i] & b[i])
  }

  function OrBits(a: seq<bv8>, b: seq<bv8>): seq<bv8>
    requires |a| == |b|
  {
    seq(|a|, i requires 0 <= i < |a| => a[i] | b[i])
  }

  lemma MembersOfAnd(a: seq<bv8>, b: seq<bv8>)
    ensures Members(AndBits(a, b)) == Members(a) * Members(b)
  {
    forall p: nat
      ensures p in Members(AndBits(a, b)) <==> p in Members(a) && p in Members(b)
    {
      InMembers(a, p);
      InMembers(b, p);
      InMembers(AndBits(a, b), p);
      if p / 8 < |AndBits(a, b)| {
        HasOr(a[p / 8], b[p / 8], p % 8);
      }
    }
  }

  lemma MembersOfOr(a: seq<bv8>, b: seq<bv8>)
    requires |a| == |b|
    ensures Members(OrBits(a, b)) == Members(a) + Members(b)
  {
    var both := OrBits(a, b);
    forall p: nat
      ensures p in Members(both) <==> p in Members(a) || p in Members(b)
    {
      MemberOfOr(a, b, p);
    }
  }

  lemma BitOfOr(a: seq<bv8>, b: seq<bv8>, p: nat)
    requires |a| == |b|
    ensures IsBitSet(OrBits(a, b), p) <==> IsBitSet(a, p) || IsBitSet(b, p)
  {
    if p / 8 < |a| {
      HasOr(a[p / 8], b[p / 8], p % 8);
    }
  }

  lemma MemberOfOr(a: seq<bv8>, b: seq<bv8>, p: nat)
    requires |a| == |b|
    ensures p in Members(OrBits(a, b)) <==> p in Members(a) || p in Members(b)
  {
    var both := OrBits(a, b);
    InMembers(a, p);
    InMembers(b, p);
    InMembers(both, p);
    BitOfOr(a, b, p);
  }

  // ----- counting -----

  function CountBits(data: seq<bv8>): nat
  {
    if data == [] then 0 else CountBits(data[..|data| - 1]) + Ones(data[|data| - 1], 8)
  }

  lemma {:induction false} OnesIsSize(b: bv8, base: nat, k: nat)
    requires k <= 8
    ensures Ones(b, k) == |ByteMembers(b, base, k)|
  {
    if k > 0 {
      OnesIsSize(b, base, k - 1);
      ByteMember(b, base, k - 1, base + k - 1);
    }
  }

  lemma {:induction false} CountIsSize(data: seq<bv8>)
    ensures CountBits(data) == |Members(data)|
  {
    if data != [] {
      var n := |data| - 1;
      var low, high := Members(data[..n]), ByteMembers(data[n], 8 * n, 8);
      CountIsSize(data[..n]);
      OnesIsSize(data[n], 8 * n, 8);
      forall p: nat | p in low
        ensures p !in high
      {
        InMembers(data[..n], p);
        ByteMember(data[n], 8 * n, 8, p);
      }
      assert low !! high;
    }
  }

  method PopCount(data: seq<bv8>) returns (count: nat)
    ensures count == |Members(data)|
  {
    count := 0;
    for i := 0 to |data|
      invariant count == CountBits(data[..i])
    {
      assert data[..i + 1][..i] == data[..i];
      count := count + Ones(data[i], 8);
    }
    assert data[..|data|] == data;
    CountIsSize(data);
  }

  method PopCountAnd(a: seq<bv8>, b: seq<bv8>) returns (count: nat)
    ensures count == |Members(a) * Members(b)|
  {
    var n := if |a| < |b| then |a| else |b|;
    ghost var both := AndBits(a, b);
    count := 0;
    for i := 0 to n
      invariant count == CountBits(both[..i])
    {
      assert both[..i + 1][..i] == both[..i];
      count := count + Ones(a[i] & b[i], 8);
    }
    assert both[..n] == both;
    CountIsSize(both);
    MembersOfAnd(a, b);
  }

  // ----- the committee layout of a slot -----

  /** Validators are numbered by validators[p] = activeIndices[member], weights by effectiveBalances[member]. */
  datatype EpochStats = EpochStats(duties: Duties, activeIndices: seq<nat>, effectiveBalances: seq<nat>)

  datatype Layout = Layout(
    offsets: seq<nat>,
    sizes: seq<nat>,
    totalMembers: nat,
    positions: map<nat, nat>,
    validators: seq<nat>,
    weights: seq<nat>,
    totalSlotETH: nat)

  function Sum(s: seq<nat>): nat
  {
    if s == [] then 0 else Sum(s[..|s| - 1]) + s[|s| - 1]
  }

  predicate MembersInRange(committees: seq<seq<nat>>, n: nat)
  {
    forall c :: 0 <= c < |committees| ==> InRange(committees[c], n)
  }

  predicate InRange(members: seq<nat>, n: nat)
  {
    forall i :: 0 <= i < |members| ==> members[i] < n
  }

  ghost function Select(values: seq<nat>, members: seq<nat>): (s: seq<nat>)
    requires InRange(members, |values|)
    ensures |s| == |members|
  {
    seq(|members|, i requires 0 <= i < |members| => values[members[i]])
  }

  /** Every validator of the list, at the last place where it occurs. */
  ghost predicate LastPositions(positions: map<nat, nat>, validators: seq<nat>)
  {
    && (forall p :: 0 <= p < |validators| ==> validators[p] in positions && p <= positions[validators[p]])
    && (forall v :: v in positions ==> positions[v] < |validators| && validators[positions[v]] == v)
  }

  ghost predicate IsLayout(layout: Layout, committees: seq<seq<nat>>, active: seq<nat>, balances: seq<nat>)
  {
    && |layout.offsets| == |layout.sizes| == |committees|
    && (forall i :: 0 <= i < |committees| ==>
          layout.offsets[i] == |Flat(committees[..i])| && layout.sizes[i] == |committees[i]|)
    && layout.totalMembers == |Flat(committees)|
    && |active| == |balances| && InRange(Flat(committees), |active|)
    && layout.validators == Select(active, Flat(committees))
    && layout.weights == Select(balances, Flat(committees))
    && layout.totalSlotETH == Sum(layout.weights)
    && LastPositions(layout.positions, layout.validators)
  }

  lemma {:induction false} FlatPrefix<T>(committees: seq<seq<T>>, i: nat, j: nat)
    requires i < |committees| && j < |committees[i]|
    ensures |Flat(committees[..i])| + |committees[i]| <= |Flat(committees)|
    ensures Flat(committees)[|Flat(committees[..i])| + j] == committees[i][j]
    decreases |committees|
  {
    var n := |committees| - 1;
    if i < n {
      FlatPrefix(committees[..n], i, j);
      assert committees[..n][..i] == committees[..i];
    }
  }

  /** Every place of the flattened list belongs to a committee. */
  lemma {:induction false} FlatPlace<T>(committees: seq<seq<T>>, p: nat) returns (i: nat, j: nat)
    requires p < |Flat(committees)|
    ensures i < |committees| && j < |committees[i]| && p == |Flat(committees[..i])| + j
    decreases |committees|
  {
    var n := |committees| - 1;
    if p < |Flat(committees[..n])| {
      i, j := FlatPlace(committees[..n], p);
      assert committees[..n][..i] == committees[..i];
    } else {
      i, j := n, p - |Flat(committees[..n])|;
    }
  }

  lemma {:induction false} FlatGrows<T>(committees: seq<seq<T>>, i: nat, i': nat)
    requires i < i' <= |committees|
    ensures |Flat(committees[..i])| + |committees[i]| <= |Flat(committees[..i'])|
  {
    assert committees[..i'][..i' - 1] == committees[..i' - 1];
    if i < i' - 1 {
      FlatGrows(committees, i, i' - 1);
    }
  }

  method BuildCommitteeLayout(stats: Option<EpochStats>, slotIndex: nat) returns (layout: Option<Layout>)
    requires stats.Some? ==> |stats.value.activeIndices| == |stats.value.effectiveBalances|
    requires stats.Some? && slotIndex < |stats.value.duties| ==>
      MembersInRange(stats.value.duties[slotIndex], |stats.value.activeIndices|)
    ensures layout.Some? <==> stats.Some? && slotIndex < |stats.value.duties|
    ensures layout.Some? ==>
      IsLayout(layout.value, stats.value.duties[slotIndex], stats.value.activeIndices, stats.value.effectiveBalances)
  {
    if stats.None? || slotIndex >= |stats.value.duties| {
      return None;
    }
    var committees := stats.value.duties[slotIndex];
    var sizes, offsets, totalMembers := CommitteeOffsets(committees);
    var positions, validators, weights, totalSlotETH :=
      PlaceMembers(committees, stats.value.activeIndices, stats.value.effectiveBalances);
    layout := Some(Layout(offsets, sizes, totalMembers, positions, validators, weights, totalSlotETH));
  }

  /** Offsets and sizes of the first c committees. */
  ghost predicate PrefixSizes<T>(committees: seq<seq<T>>, offsets: seq<nat>, sizes: seq<nat>, c: nat)
    requires c <= |committees|
  {
    && |offsets| == |sizes| == c
    && forall i :: 0 <= i < c ==> offsets[i] == |Flat(committees[..i])| && sizes[i] == |committees[i]|
  }

  lemma OneMoreSize<T>(committees: seq<seq<T>>, offsets: seq<nat>, sizes: seq<nat>, c: nat)
    requires c < |committees| && PrefixSizes(committees, offsets, sizes, c)
    ensures PrefixSizes(committees, offsets + [|Flat(committees[..c])|], sizes + [|committees[c]|], c + 1)
  {
  }

  lemma FlatOneMore<T>(committees: seq<seq<T>>, c: nat)
    requires c < |committees|
    ensures Flat(committees[..c + 1]) == Flat(committees[..c]) + committees[c]
  {
    assert committees[..c + 1][..c] == committees[..c];
  }

  method CommitteeOffsets(committees: seq<seq<nat>>) returns (sizes: seq<nat>, offsets: seq<nat>, totalMembers: nat)
    ensures |offsets| == |sizes| == |committees|
    ensures forall i :: 0 <= i < |committees| ==> offsets[i] == |Flat(committees[..i])| && sizes[i] == |committees[i]|
    ensures totalMembers == |Flat(committees)|
  {
    sizes, offsets, totalMembers := [], [], 0;
    for c := 0 to |committees|
      invariant PrefixSizes(committees, offsets, sizes, c) && totalMembers == |Flat(committees[..c])|
    {
      OneMoreSize(committees, offsets, sizes, c);
      FlatOneMore(committees, c);
      offsets := offsets + [totalMembers];
      sizes := sizes + [|committees[c]|];
      totalMembers := totalMembers + |committees[c]|;
    }
    assert committees[..|committees|] == committees;
  }

  lemma SelectOneMore(values: seq<nat>, committees: seq<seq<nat>>, c: nat)
    requires c < |committees| && InRange(Flat(committees[..c]), |values|) && InRange(committees[c], |values|)
    ensures InRange(Flat(committees[..c + 1]), |values|)
    ensures Select(values, Flat(committees[..c + 1])) == Select(values, Flat(committees[..c])) + Select(values, committees[c])
  {
    FlatOneMore(committees, c);
  }

  method PlaceMembers(committees: seq<seq<nat>>, active: seq<nat>, balances: seq<nat>)
    returns (positions: map<nat, nat>, validators: seq<nat>, weights: seq<nat>, totalSlotETH: nat)
    requires |active| == |balances| && MembersInRange(committees, |active|)
    ensures InRange(Flat(committees), |active|)
    ensures validators == Select(active, Flat(committees)) && weights == Select(balances, Flat(committees))
    ensures totalSlotETH == Sum(weights) && LastPositions(positions, validators)
  {
    positions, validators, weights, totalSlotETH := map[], [], [], 0;
    for c := 0 to |committees|
      invariant InRange(Flat(committees[..c]), |active|)
      invariant validators == Select(active, Flat(committees[..c])) && weights == Select(balances, Flat(committees[..c]))
      invariant totalSlotETH == Sum(weights) && LastPositions(positions, validators)
    {
      SelectOneMore(active, committees, c);
      SelectOneMore(balances, committees, c);
      positions, validators, weights, totalSlotETH :=
        PlaceCommittee(committees[c], active, balances, positions, validators, weights, totalSlotETH);
    }
    assert committees[..|committees|] == committees;
  }

  /** The inner loop, over one committee. */
  method PlaceCommittee(committee: seq<nat>, active: seq<nat>, balances: seq<nat>, positions0: map<nat, nat>,
      validators0: seq<nat>, weights0: seq<nat>, totalSlotETH0: nat)
    returns (positions: map<nat, nat>, validators: seq<nat>, weights: seq<nat>, totalSlotETH: nat)
    requires |active| == |balances| && InRange(committee, |active|)
    requires totalSlotETH0 == Sum(weights0) && LastPositions(positions0, validators0)
    ensures validators == validators0 + Select(active, committee) && weights == weights0 + Select(balances, committee)
    ensures totalSlotETH == Sum(weights) && LastPositions(positions, validators)
  {
    positions, validators, weights, totalSlotETH := positions0, validators0, weights0, totalSlotETH0;
    for j := 0 to |committee|
      invariant validators == validators0 + Select(active, committee)[..j]
      invariant weights == weights0 + Select(balances, committee)[..j]
      invariant totalSlotETH == Sum(weights) && LastPositions(positions, validators)
    {
      var aidx := committee[j];
      assert (weights + [balances[aidx]])[..|weights|] == weights;
      positions := positions[active[aidx] := |validators|];
      validators := validators + [active[aidx]];
      weights := weights + [balances[aidx]];
      totalSlotETH := totalSlotETH + balances[aidx];
    }
  }

  /** Positions and validators are inverse to each other exactly when no validator is listed twice. */
  lemma PositionsAreInverse(layout: Layout, committees: seq<seq<nat>>, active: seq<nat>, balances: seq<nat>)
    requires IsLayout(layout, committees, active, balances)
    ensures forall v :: v in layout.positions ==> layout.validators[layout.positions[v]] == v
    ensures Distinct(layout.validators) <==>
      forall p :: 0 <= p < layout.totalMembers ==> layout.positions[layout.validators[p]] == p
  {
    if forall p :: 0 <= p < layout.totalMembers ==> layout.positions[layout.validators[p]] == p {
      forall i, j | 0 <= i < j < layout.totalMembers
        ensures layout.validators[i] != layout.validators[j]
      {
        assert layout.positions[layout.validators[i]] == i && layout.positions[layout.validators[j]] == j;
      }
    }
  }

  /** The layout of a slot of a real epoch lists no validator twice. */
  lemma SlotValidatorsDistinct(h: Shuffle.HashFn, spec: ChainSpec, n: nat, seed: Bytes.Bytes32, stats: EpochStats,
      slotIndex: nat, layout: Layout)
    requires ValidSpec(spec) && IsDuties(h, spec, n, seed, stats.duties) && slotIndex < |stats.duties|
    requires |stats.activeIndices| == n && Distinct(stats.activeIndices)
    requires IsLayout(layout, stats.duties[slotIndex], stats.activeIndices, stats.effectiveBalances)
    ensures Distinct(layout.validators)
  {
    var committees := stats.duties[slotIndex];
    forall p, q | 0 <= p < q < layout.totalMembers
      ensures layout.validators[p] != layout.validators[q]
    {
      MembersDistinct(h, spec, n, seed, stats.duties, slotIndex, p, q);
    }
  }

  lemma OneSeat(h: Shuffle.HashFn, spec: ChainSpec, n: nat, seed: Bytes.Bytes32, duties: Duties, v: nat, s: nat,
                i: nat, j: nat, i': nat, j': nat, perSlot: nat)
    requires ValidSpec(spec) && IsDuties(h, spec, n, seed, duties) && v < n && perSlot == SlotCommitteeCount(spec, n)
    requires Assigned(duties, v, s, i, j) && Assigned(duties, v, s, i', j')
    ensures i == i' && j == j'
  {
    OneCommittee(h, spec, n, seed, duties, v, perSlot, perSlot * spec.slotsPerEpoch, s, i, j, s, i', j');
  }

  lemma MembersDistinct(h: Shuffle.HashFn, spec: ChainSpec, n: nat, seed: Bytes.Bytes32, duties: Duties, s: nat, p: nat, q: nat)
    requires ValidSpec(spec) && IsDuties(h, spec, n, seed, duties) && s < |duties|
    requires InRange(Flat(duties[s]), n) && p < q < |Flat(duties[s])|
    ensures Flat(duties[s])[p] != Flat(duties[s])[q]
  {
    var i, j := FlatPlace(duties[s], p);
    var i', j' := FlatPlace(duties[s], q);
    FlatPrefix(duties[s], i, j);
    FlatPrefix(duties[s], i', j');
    var v := Flat(duties[s])[p];
    if v == Flat(duties[s])[q] {
      OneSeat(h, spec, n, seed, duties, v, s, i, j, i', j', SlotCommitteeCount(spec, n));
    }
  }
}
