/**
 What a block's attestations say (recordBlockAttestations of pkg/chain/headvotes.go): the members that they name, in bit
 positions and in validators, and how a slot's state and the coverage window take them.
 */
module HeadVoteCoverage {
  import opened Common
  import opened VoteBits
  import opened AggregateBits
  import opened HeadVotes
  import opened HeadVoteStates

  const COVERAGE_WINDOW: nat := 16
  const COVERAGE_MIN_SLOTS: nat := 8
  const COVERAGE_MIN_ATTESTERS: nat := 16

  datatype Sample = Sample(seen: nat, total: nat)

  // ----- the members named -----

  ghost predicate Names(states: States, att: Attestation, key: Key, p: nat)
  {
    && key == (att.slot, att.root) && key.0 in states
    && |states[key.0].layout.offsets| == |states[key.0].layout.sizes|
    && Visited(states[key.0].layout, ClaimsOf(att), p)
  }

  /** Some of the attestations name the committee member at position p for this slot and root. */
  ghost predicate Named(states: States, atts: seq<Attestation>, key: Key, p: nat)
  {
    exists i :: 0 <= i < |atts| && Names(states, atts[i], key, p)
  }

  lemma NamedLast(states: States, before: seq<Attestation>, att: Attestation, key: Key, p: nat)
    ensures Named(states, before + [att], key, p) <==> Named(states, before, key, p) || Names(states, att, key, p)
  {
    var atts := before + [att];
    assert atts[|before|] == att;
    if i :| 0 <= i < |before| && Names(states, before[i], key, p) {
      assert Names(states, atts[i], key, p);
    }
    if i :| 0 <= i < |atts| && Names(states, atts[i], key, p) {
      assert i < |before| ==> Names(states, before[i], key, p);
    }
  }

  ghost predicate NamesAnyone(states: States, atts: seq<Attestation>)
  {
    exists k, p :: Named(states, atts, k, p)
  }

  /** The positions that the attestations name for one slot and root. */
  ghost function NamedSet(states: States, atts: seq<Attestation>, k: Key): set<nat>
  {
    if k.0 in states then set p: nat | p < states[k.0].layout.totalMembers && Named(states, atts, k, p) else {}
  }

  /** The attestation is for this slot and root, and the validator is one of its attesting indices. */
  ghost predicate NamesValidator(b: Basis, att: Attestation, v: nat)
  {
    exists m :: m in AttestingIndices(b.committees, ClaimsOf(att)) && m < |b.active| && b.active[m] == v
  }

  ghost predicate Attested(b: Basis, atts: seq<Attestation>, slot: nat, root: nat, v: nat)
  {
    exists i :: 0 <= i < |atts| && atts[i].slot == slot && atts[i].root == root && NamesValidator(b, atts[i], v)
  }

  lemma VisitsValidators(layout: Layout, b: Basis, att: Attestation, v: nat)
    requires LaidOut(layout, b)
    ensures NamesValidator(b, att, v) <==>
      exists p: nat :: p < |layout.validators| && Visited(layout, ClaimsOf(att), p) && layout.validators[p] == v
  {
    if m :| m in AttestingIndices(b.committees, ClaimsOf(att)) && m < |b.active| && b.active[m] == v {
      VisitsExactlyTheAttesters(layout, b.committees, b.active, b.balances, ClaimsOf(att), m);
      var p: nat :| p < layout.totalMembers && Visited(layout, ClaimsOf(att), p) && Flat(b.committees)[p] == m;
      assert layout.validators[p] == v;
    }
    if p: nat :| p < |layout.validators| && Visited(layout, ClaimsOf(att), p) && layout.validators[p] == v {
      var m := Flat(b.committees)[p];
      VisitsExactlyTheAttesters(layout, b.committees, b.active, b.balances, ClaimsOf(att), m);
      assert m < |b.active| && b.active[m] == v;
    }
  }

  /** The positions named, as validators: those that the attestations for the slot and root have as attesting indices. */
  lemma NamedAreAttested(states: States, bases: map<nat, Basis>, atts: seq<Attestation>, k: Key, v: nat)
    requires k.0 in states && LaidOutAt(states, bases, k.0)
    ensures v in ValidatorsOf(states[k.0].layout, NamedSet(states, atts, k)) <==> Attested(bases[k.0], atts, k.0, k.1, v)
  {
    var layout, b := states[k.0].layout, bases[k.0];
    if p :| p in NamedSet(states, atts, k) && p < |layout.validators| && layout.validators[p] == v {
      var i :| 0 <= i < |atts| && Names(states, atts[i], k, p);
      VisitsValidators(layout, b, atts[i], v);
    }
    if i :| 0 <= i < |atts| && atts[i].slot == k.0 && atts[i].root == k.1 && NamesValidator(b, atts[i], v) {
      var p := PositionNamed(states, b, atts, k, v, i);
    }
  }

  lemma PositionNamed(states: States, b: Basis, atts: seq<Attestation>, k: Key, v: nat, i: nat) returns (p: nat)
    requires k.0 in states && LaidOut(states[k.0].layout, b)
    requires i < |atts| && atts[i].slot == k.0 && atts[i].root == k.1 && NamesValidator(b, atts[i], v)
    ensures p in NamedSet(states, atts, k) && p < |states[k.0].layout.validators| && states[k.0].layout.validators[p] == v
  {
    VisitsValidators(states[k.0].layout, b, atts[i], v);
    p :| p < |states[k.0].layout.validators| && Visited(states[k.0].layout, ClaimsOf(atts[i]), p)
      && states[k.0].layout.validators[p] == v;
    assert Names(states, atts[i], k, p);
  }

  // ----- their bitmaps -----

  type Bits = map<Key, seq<bv8>>

  ghost predicate BitsFit(states: States, blockBits: Bits)
  {
    forall k :: k in blockBits ==> k.0 in states && BitmapFits(states[k.0].layout, blockBits[k])
  }

  /** The bitmaps hold exactly the positions named. */
  ghost predicate AreBits(states: States, atts: seq<Attestation>, blockBits: Bits)
  {
    forall k: Key, p: nat :: p in BitsAt(blockBits, k) <==> Named(states, atts, k, p)
  }

  lemma MarkedBitsFit(states: States, key: Key, att: Attestation, blockBits: Bits,
      bitmap: seq<bv8>, marked: seq<bv8>)
    requires BitsFit(states, blockBits) && key.0 in states && LayoutShape(states[key.0].layout)
    requires |marked| == |bitmap| && BitmapFits(states[key.0].layout, bitmap)
    requires forall p: nat :: p in Members(marked) <==> p in Members(bitmap) || Visited(states[key.0].layout, ClaimsOf(att), p)
    ensures BitsFit(states, blockBits[key := marked])
  {
  }

  lemma MarkedAreBits(states: States, before: seq<Attestation>, att: Attestation, blockBits: Bits, marked: seq<bv8>)
    requires att.slot in states && |states[att.slot].layout.offsets| == |states[att.slot].layout.sizes|
    requires AreBits(states, before, blockBits)
    requires forall p: nat :: p in Members(marked) <==>
      p in BitsAt(blockBits, (att.slot, att.root)) || Visited(states[att.slot].layout, ClaimsOf(att), p)
    ensures AreBits(states, before + [att], blockBits[(att.slot, att.root) := marked])
  {
    var blockBits' := blockBits[(att.slot, att.root) := marked];
    forall k: Key, p: nat
      ensures p in BitsAt(blockBits', k) <==> Named(states, before + [att], k, p)
    {
      NamedLast(states, before, att, k, p);
      assert p in BitsAt(blockBits, k) <==> Named(states, before, k, p);
    }
  }

  lemma UntrackedNamesNobody(states: States, before: seq<Attestation>, att: Attestation, blockBits: Bits)
    requires att.slot !in states && AreBits(states, before, blockBits)
    ensures AreBits(states, before + [att], blockBits)
  {
    forall k: Key, p: nat
      ensures p in BitsAt(blockBits, k) <==> Named(states, before + [att], k, p)
    {
      NamedLast(states, before, att, k, p);
      assert p in BitsAt(blockBits, k) <==> Named(states, before, k, p);
    }
  }

  lemma BitsAreNamed(states: States, atts: seq<Attestation>, blockBits: Bits, k: Key)
    requires BitsFit(states, blockBits) && AreBits(states, atts, blockBits)
    ensures BitsAt(blockBits, k) == NamedSet(states, atts, k)
  {
    forall p: nat
      ensures p in BitsAt(blockBits, k) <==> p in NamedSet(states, atts, k)
    {
      assert p in BitsAt(blockBits, k) <==> Named(states, atts, k, p);
      assert k in blockBits ==> k.0 in states && BitmapFits(states[k.0].layout, blockBits[k]);
    }
  }

  /** The members of a slot that blocks say attested to the root. */
  ghost function OnChain(s: SlotVotes, root: nat): set<nat>
  {
    if root in s.roots then BlockMembers(s.roots[root]) else {}
  }

  ghost predicate BitmapFits(layout: Layout, bitmap: seq<bv8>)
  {
    |bitmap| == (layout.totalMembers + 7) / 8 && Within(Members(bitmap), layout.totalMembers)
  }

  predicate BlockBitsFit(rs: RootVotes, bitmap: seq<bv8>)
  {
    rs.blockBits.Some? ==> |rs.blockBits.value| == |bitmap|
  }

  function WithBlockBits(rs: RootVotes, bitmap: seq<bv8>): RootVotes
    requires BlockBitsFit(rs, bitmap)
  {
    rs.(blockBits := Some(if rs.blockBits.None? then bitmap else OrBits(rs.blockBits.value, bitmap)))
  }

  ghost function BlockMembers(rs: RootVotes): set<nat>
  {
    if rs.blockBits.Some? then Members(rs.blockBits.value) else {}
  }

  lemma WithBlockBitsIsSound(threshold: nat, layout: Layout, rs: RootVotes, bitmap: seq<bv8>)
    requires LayoutOk(layout) && Sound(threshold, layout, rs) && BitmapFits(layout, bitmap)
    ensures BlockBitsFit(rs, bitmap) && Sound(threshold, layout, WithBlockBits(rs, bitmap))
    ensures BlockMembers(WithBlockBits(rs, bitmap)) == BlockMembers(rs) + Members(bitmap)
  {
    if rs.blockBits.Some? {
      MembersOfOr(rs.blockBits.value, bitmap);
    }
  }

  /** What recordBlockAttestations makes of one slot, given the bitmap for one of its roots. */
  function Recorded(s: SlotVotes, root: nat, bitmap: seq<bv8>): SlotVotes
    requires RecordFits(s, root, bitmap)
  {
    if bitmap == Zeros(|bitmap|, 0) then s
    else SeenInBlock(WithRoot(s, root), root, bitmap)
  }

  function SeenInBlock(s: SlotVotes, root: nat, bitmap: seq<bv8>): SlotVotes
    requires RecordFits(s, root, bitmap)
  {
    if root in s.roots then s.(roots := s.roots[root := WithBlockBits(s.roots[root], bitmap)]) else s
  }

  lemma SeenInBlockIsOk(threshold: nat, s: SlotVotes, root: nat, bitmap: seq<bv8>)
    requires SlotOk(threshold, s) && BitmapFits(s.layout, bitmap)
    ensures RecordFits(s, root, bitmap) && SlotOk(threshold, SeenInBlock(s, root, bitmap))
    ensures SeenInBlock(s, root, bitmap).layout == s.layout && SeenInBlock(s, root, bitmap).headRoot == s.headRoot
    ensures SeenInBlock(s, root, bitmap).roots.Keys == s.roots.Keys
    ensures forall r :: Voters(SeenInBlock(s, root, bitmap), r) == Voters(s, r)
    ensures forall r :: r != root ==> OnChain(SeenInBlock(s, root, bitmap), r) == OnChain(s, r)
    ensures root in s.roots ==> OnChain(SeenInBlock(s, root, bitmap), root) == OnChain(s, root) + Members(bitmap)
  {
    if root in s.roots {
      assert Sound(threshold, s.layout, s.roots[root]);
      WithBlockBitsIsSound(threshold, s.layout, s.roots[root], bitmap);
      ReplacedRootIsOk(threshold, s, root, WithBlockBits(s.roots[root], bitmap));
    }
  }

  lemma WithRootKeepsChain(s: SlotVotes, root: nat)
    ensures forall r :: OnChain(WithRoot(s, root), r) == OnChain(s, r)
    ensures forall r :: r != root ==> (r in WithRoot(s, root).roots <==> r in s.roots)
    ensures s.roots.Keys <= WithRoot(s, root).roots.Keys
    ensures WithRoot(s, root).layout == s.layout && WithRoot(s, root).headRoot == s.headRoot
  {
  }

  predicate RecordFits(s: SlotVotes, root: nat, bitmap: seq<bv8>)
  {
    root in s.roots ==> BlockBitsFit(s.roots[root], bitmap)
  }

  /** A root is tracked for a block only if the block names a member for it and there is room. */
  lemma RecordedTracks(s: SlotVotes, root: nat, bitmap: seq<bv8>)
    requires RecordFits(s, root, bitmap)
    ensures root in Recorded(s, root, bitmap).roots <==>
      root in s.roots || (Members(bitmap) != {} && |s.roots| < MAX_TRACKED_ROOTS)
    ensures Members(bitmap) == {} ==> Recorded(s, root, bitmap) == s
  {
    NoMembers(bitmap);
  }

  lemma RecordedIsOk(threshold: nat, s: SlotVotes, root: nat, bitmap: seq<bv8>)
    requires SlotOk(threshold, s) && BitmapFits(s.layout, bitmap)
    ensures RecordFits(s, root, bitmap) && RecordFits(WithRoot(s, root), root, bitmap)
    ensures var s' := Recorded(s, root, bitmap);
      && SlotOk(threshold, s') && s'.layout == s.layout && s'.headRoot == s.headRoot && s.roots.Keys <= s'.roots.Keys
      && (forall r :: Voters(s', r) == Voters(s, r))
      && (forall r :: r != root ==> (r in s'.roots <==> r in s.roots) && OnChain(s', r) == OnChain(s, r))
      && (root in s'.roots ==> OnChain(s', root) == OnChain(s, root) + Members(bitmap))
  {
    WithRootIsOk(threshold, s, root);
    WithRootKeepsChain(s, root);
    SeenInBlockIsOk(threshold, WithRoot(s, root), root, bitmap);
    NoMembers(bitmap);
  }

  /** What storing it needs, and the number of members seen. */
  lemma RecordReady(threshold: nat, s: SlotVotes, root: nat, bitmap: seq<bv8>)
    requires SlotOk(threshold, s) && BitmapFits(s.layout, bitmap)
    ensures RecordFits(s, root, bitmap) && RecordFits(WithRoot(s, root), root, bitmap)
    ensures SlotOk(threshold, Recorded(s, root, bitmap)) && Recorded(s, root, bitmap).layout == s.layout
    ensures FlagsKept(s, Recorded(s, root, bitmap)) && s.roots.Keys <= Recorded(s, root, bitmap).roots.Keys
    ensures root in WithRoot(s, root).roots ==>
      |WithRoot(s, root).roots[root].voteBits| == |bitmap| && Members(WithRoot(s, root).roots[root].voteBits) == Voters(s, root)
    ensures root !in WithRoot(s, root).roots ==> Members(bitmap) * Voters(s, root) == {}
  {
    WithRootIsOk(threshold, s, root);
    RecordedIsOk(threshold, s, root, bitmap);
    RecordedOnlyBlocks(s, s, root, bitmap);
    assert root in WithRoot(s, root).roots ==> Sound(threshold, s.layout, WithRoot(s, root).roots[root]);
    assert Voters(WithRoot(s, root), root) == Voters(s, root);
  }

  ghost predicate ChainProgress(states: States, states': States, blockBits: Bits, rest: set<Key>)
  {
    forall k {:trigger TrackedAt(states', k)} :: TrackedAt(states', k) ==>
      OnChain(states'[k.0], k.1) == OnChainAt(states, k) + if k in rest then {} else BitsAt(blockBits, k)
  }

  lemma RecordStep(threshold: nat, states: States, states': States, blockBits: Bits, rest: set<Key>, key: Key)
    requires ChainProgress(states, states', blockBits, rest) && SameVotes(states, states') && key in rest && key in blockBits
    requires key.0 in states' && SlotOk(threshold, states'[key.0]) && BitmapFits(states'[key.0].layout, blockBits[key])
    ensures RecordFits(states'[key.0], key.1, blockBits[key])
    ensures var states'' := states'[key.0 := Recorded(states'[key.0], key.1, blockBits[key])];
      ChainProgress(states, states'', blockBits, rest - {key}) && SameVotes(states, states'')
  {
    RecordedIsOk(threshold, states'[key.0], key.1, blockBits[key]);
    var s' := Recorded(states'[key.0], key.1, blockBits[key]);
    assert OnlyBlocksAt(states, states', key.0);
    RecordedOnlyBlocks(states[key.0], states'[key.0], key.1, blockBits[key]);
    RecordKeepsVotes(states, states', key.0, s');
    RecordExtendsChain(states, states', blockBits, rest, key, s');
  }

  lemma RecordKeepsVotes(states: States, states': States, slot: nat, s': SlotVotes)
    requires SameVotes(states, states') && slot in states && OnlyBlocks(states[slot], s')
    ensures SameVotes(states, states'[slot := s'])
  {
    var states'' := states'[slot := s'];
    forall s
      ensures OnlyBlocksAt(states, states'', s)
    {
      assert OnlyBlocksAt(states, states', s);
    }
  }

  lemma RecordExtendsChain(states: States, states': States, blockBits: Bits,
      rest: set<Key>, key: Key, s': SlotVotes)
    requires ChainProgress(states, states', blockBits, rest) && SameVotes(states, states') && key in rest && key in blockBits
    requires key.0 in states'
    requires forall r :: r != key.1 ==>
      (r in s'.roots <==> r in states'[key.0].roots) && OnChain(s', r) == OnChain(states'[key.0], r)
    requires key.1 in s'.roots ==> OnChain(s', key.1) == OnChain(states'[key.0], key.1) + Members(blockBits[key])
    ensures ChainProgress(states, states'[key.0 := s'], blockBits, rest - {key})
  {
    assert OnlyBlocksAt(states, states', key.0);
    var states'' := states'[key.0 := s'];
    forall k | TrackedAt(states'', k)
      ensures OnChain(states''[k.0], k.1) == OnChainAt(states, k) + if k in rest - {key} then {} else BitsAt(blockBits, k)
    {
      if k == key {
        assert TrackedAt(states', key) ==> OnChain(states'[key.0], key.1) == OnChainAt(states, key);
        assert !TrackedAt(states', key) ==> OnChainAt(states, key) == {};
      } else {
        assert k == (k.0, k.1) && key == (key.0, key.1);
        assert TrackedAt(states', k);
      }
    }
  }

  /** One more measured block, at most sixteen in all. */
  ghost function AfterSample(samples: seq<Sample>, attesters: set<nat>, voters: set<nat>): seq<Sample>
  {
    if attesters == {} then samples
    else LastOnes(samples + [Sample(|attesters * voters|, |attesters|)])
  }

  function LastOnes(samples: seq<Sample>): seq<Sample>
  {
    if |samples| > COVERAGE_WINDOW then samples[|samples| - COVERAGE_WINDOW..] else samples
  }

  /** Roots stay tracked, new ones start without votes, and nothing but the block bitmaps changes. */
  ghost predicate OnlyBlocks(s: SlotVotes, s': SlotVotes)
  {
    && s'.layout == s.layout && s'.headRoot == s.headRoot && s.roots.Keys <= s'.roots.Keys
    && forall r :: r in s'.roots ==>
      s'.roots[r] == (if r in s.roots then s.roots[r] else FreshRoot(s.layout)).(blockBits := s'.roots[r].blockBits)
  }

  ghost predicate OnlyBlocksAt(states: States, states': States, s: nat)
  {
    s in states ==> s in states' && OnlyBlocks(states[s], states'[s])
  }

  ghost predicate SameVotes(states: States, states': States)
  {
    states'.Keys == states.Keys && forall s {:trigger OnlyBlocksAt(states, states', s)} :: OnlyBlocksAt(states, states', s)
  }

  lemma OnlyBlocksKeepsVoters(s: SlotVotes, s': SlotVotes, r: nat)
    requires OnlyBlocks(s, s')
    ensures Voters(s', r) == Voters(s, r)
  {
    NoMembers(FreshRoot(s.layout).voteBits);
  }

  lemma RecordedOnlyBlocks(s0: SlotVotes, s: SlotVotes, root: nat, bitmap: seq<bv8>)
    requires OnlyBlocks(s0, s) && RecordFits(WithRoot(s, root), root, bitmap) && RecordFits(s, root, bitmap)
    ensures OnlyBlocks(s0, Recorded(s, root, bitmap))
  {
  }

  ghost function OnChainAt(states: States, key: Key): set<nat>
  {
    if key.0 in states then OnChain(states[key.0], key.1) else {}
  }

  ghost function BitsAt(blockBits: Bits, key: Key): set<nat>
  {
    if key in blockBits then Members(blockBits[key]) else {}
  }

  lemma AnyBitsIffNamed(states: States, atts: seq<Attestation>, blockBits: Bits)
    requires AreBits(states, atts, blockBits)
    ensures AnyBits(blockBits, {}) <==> NamesAnyone(states, atts)
  {
    if AnyBits(blockBits, {}) {
      var k :| k in blockBits && Members(blockBits[k]) != {};
      var p: nat :| p in Members(blockBits[k]);
      assert p in BitsAt(blockBits, k);
    } else {
      forall k: Key, p: nat
        ensures !Named(states, atts, k, p)
      {
        assert p !in BitsAt(blockBits, k);
      }
    }
  }

  ghost predicate AnyBits(blockBits: Bits, rest: set<Key>)
  {
    exists k :: k in blockBits && k !in rest && Members(blockBits[k]) != {}
  }

  /** The samples of one block: in some order, for every slot and root of which it names members. */
  ghost function AfterSamples(samples: seq<Sample>, states: States, atts: seq<Attestation>, keys: seq<Key>): seq<Sample>
  {
    if keys == [] then samples
    else
      var k := keys[|keys| - 1];
      AfterSample(AfterSamples(samples, states, atts, keys[..|keys| - 1]), NamedSet(states, atts, k), VotersAt(states, k.0, k.1))
  }

  ghost predicate ListsNamed(states: States, atts: seq<Attestation>, keys: seq<Key>)
  {
    Distinct(keys) && forall k :: NamedSet(states, atts, k) != {} ==> k in keys
  }

  /** The keys of the bitmaps outside rest, each once. */
  ghost predicate Listed(blockBits: Bits, keys: seq<Key>, rest: set<Key>)
  {
    Distinct(keys) && forall k :: k in keys <==> k in blockBits && k !in rest
  }

  lemma ListOneMore(samples: seq<Sample>, states: States, atts: seq<Attestation>, blockBits: Bits, keys: seq<Key>,
                    rest: set<Key>, key: Key)
    requires Listed(blockBits, keys, rest) && key in rest && key in blockBits
    ensures Listed(blockBits, keys + [key], rest - {key}) && (AnyBits(blockBits, rest - {key}) <==>
      AnyBits(blockBits, rest) || Members(blockBits[key]) != {})
    ensures AfterSamples(samples, states, atts, keys + [key]) ==
      AfterSample(AfterSamples(samples, states, atts, keys), NamedSet(states, atts, key), VotersAt(states, key.0, key.1))
  {
    assert (keys + [key])[..|keys|] == keys;
    if k :| k in blockBits && k !in rest && Members(blockBits[k]) != {} {
      assert k !in rest - {key};
    }
  }

  lemma ListedAreNamed(states: States, atts: seq<Attestation>, blockBits: Bits, keys: seq<Key>)
    requires BitsFit(states, blockBits) && AreBits(states, atts, blockBits) && Listed(blockBits, keys, {})
    ensures ListsNamed(states, atts, keys)
  {
    forall k | NamedSet(states, atts, k) != {}
      ensures k in keys
    {
      BitsAreNamed(states, atts, blockBits, k);
    }
  }

  ghost predicate Sampled(states: States, atts: seq<Attestation>, samples: seq<Sample>, samples': seq<Sample>)
  {
    exists keys :: ListsNamed(states, atts, keys) && samples' == AfterSamples(samples, states, atts, keys)
  }

  function SumSeen(samples: seq<Sample>): nat
  {
    if samples == [] then 0 else SumSeen(samples[..|samples| - 1]) + samples[|samples| - 1].seen
  }

  function SumTotal(samples: seq<Sample>): nat
  {
    if samples == [] then 0 else SumTotal(samples[..|samples| - 1]) + samples[|samples| - 1].total
  }

  function SeenPct(seen: nat, total: nat): real
  {
    if total == 0 then 0.0 else seen as real / total as real * 100.0
  }

  /** Flagged below 80 percent with enough measurements, cleared at 90 percent. */
  predicate NextLow(low: bool, samples: seq<Sample>)
  {
    var pct := SeenPct(SumSeen(samples), SumTotal(samples));
    if low then pct < 90.0
    else |samples| >= COVERAGE_MIN_SLOTS && SumTotal(samples) >= COVERAGE_MIN_ATTESTERS && pct < 80.0
  }

  /** The flag goes up with fewer than 80 of 100 attesters seen in enough measurements, and down with 90 or more. */
  lemma NextLowIff(low: bool, samples: seq<Sample>)
    ensures var seen, total := SumSeen(samples), SumTotal(samples);
      NextLow(low, samples) <==>
        if low then total == 0 || 100 * seen < 90 * total
        else |samples| >= 8 && total >= 16 && 100 * seen < 80 * total
  {
    var seen, total := SumSeen(samples), SumTotal(samples);
    if total > 0 {
      SeenPctBelow(seen, total, 90);
      SeenPctBelow(seen, total, 80);
    }
  }

  lemma SeenPctBelow(seen: nat, total: nat, bound: nat)
    requires total > 0
    ensures SeenPct(seen, total) < bound as real <==> 100 * seen < bound * total
  {
    var s, t, b := seen as real, total as real, bound as real;
    assert s / t * t == s;
    ProductBelow(s / t * 100.0, b, t);
    assert s / t * 100.0 * t == s * 100.0;
  }

  lemma ProductBelow(a: real, b: real, c: real)
    requires c > 0.0
    ensures a < b <==> a * c < b * c
  {
  }

  /** The percentage is that of the sums over the window, in which every sample counts once. */
  lemma {:induction false} SumsOfConcat(a: seq<Sample>, b: seq<Sample>)
    ensures SumSeen(a + b) == SumSeen(a) + SumSeen(b) && SumTotal(a + b) == SumTotal(a) + SumTotal(b)
    ensures |b| == 1 ==> SumSeen(b) == b[0].seen && SumTotal(b) == b[0].total
  {
    if b == [] {
      assert a + b == a;
    } else {
      assert (a + b)[..|a + b| - 1] == a + b[..|b| - 1];
      SumsOfConcat(a, b[..|b| - 1]);
    }
  }

  /** A measured block comes last in the window, which keeps the newest sixteen. */
  lemma NewestSamples(samples: seq<Sample>, attesters: set<nat>, voters: set<nat>) returns (dropped: nat)
    requires attesters != {} && |samples| <= 16
    ensures dropped == (if |samples| == 16 then 1 else 0)
    ensures AfterSample(samples, attesters, voters) == samples[dropped..] + [Sample(|attesters * voters|, |attesters|)]
  {
    dropped := if |samples| == 16 then 1 else 0;
  }
}
