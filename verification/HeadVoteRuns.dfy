/** A run of the head-vote tracker (pkg/chain/headvotes.go) that sends the threshold update of a root twice. */
module HeadVoteRuns {
  import opened Common
  import opened VoteBits
  import opened HeadVotes
  import opened HeadVoteStates
  import opened HeadVoteTracker

  // ----- one event, seen as tracked roots and their voters -----

  /** The root is tracked and has one more voter; nothing else changes. */
  ghost predicate IsBallot(s: SlotVotes, s': SlotVotes, root: nat, pos: nat)
  {
    && s'.layout == s.layout && s'.headRoot == s.headRoot && s'.roots.Keys == s.roots.Keys + {root}
    && Voters(s', root) == Voters(s, root) + {pos}
    && (forall r: nat :: r != root ==> Voters(s', r) == Voters(s, r))
  }

  /** A seated member's attestation is a ballot for its root, if that is tracked or there is room for it. */
  lemma VoteIsBallot(threshold: nat, s: SlotVotes, s': SlotVotes, event: SingleAttestation, time: nat)
    requires SlotOk(threshold, s) && Seated(s.layout, event) && IsVoteState(s, s', event, time)
    ensures if event.root in s.roots || |s.roots| < MAX_TRACKED_ROOTS
            then IsBallot(s, s', event.root, s.layout.positions[event.attester])
            else s' == s
  {
    WithRootIsOk(threshold, s, event.root);
    if event.root in WithRoot(s, event.root).roots {
      MergedIsBallot(threshold, s, s', event, time);
    }
  }

  lemma MergedIsBallot(threshold: nat, s: SlotVotes, s': SlotVotes, event: SingleAttestation, time: nat)
    requires RootsOk(threshold, s) && event.attester in s.layout.positions
    requires event.root in WithRoot(s, event.root).roots && Merged(WithRoot(s, event.root), s', event, time)
    ensures IsBallot(s, s', event.root, s.layout.positions[event.attester])
  {
    var tracked := WithRoot(s, event.root);
    WithRootIsOk(threshold, s, event.root);
    WithRootKeys(s, event.root);
    MergedVoters(tracked, s', event, time);
    assert forall r: nat :: r != event.root ==> Voters(s', r) == Voters(tracked, r) == Voters(s, r);
  }

  lemma WithRootKeys(s: SlotVotes, root: nat)
    requires root in WithRoot(s, root).roots
    ensures WithRoot(s, root).roots.Keys == s.roots.Keys + {root}
    ensures WithRoot(s, root).layout == s.layout && WithRoot(s, root).headRoot == s.headRoot
  {
  }

  lemma MergedVoters(s: SlotVotes, s': SlotVotes, event: SingleAttestation, time: nat)
    requires event.attester in s.layout.positions && event.root in s.roots && Merged(s, s', event, time)
    ensures forall r: nat :: r != event.root ==> Voters(s', r) == Voters(s, r)
  {
  }

  /** A ballot of a member that has voted for no other root keeps the condition of AnnouncedStays. */
  lemma BallotKeepsOneEach(s: SlotVotes, s': SlotVotes, root: nat, pos: nat)
    requires OneRootEach(s) && IsBallot(s, s', root, pos)
    requires forall r: nat :: r in s.roots && r != root ==> pos !in Voters(s, r)
    ensures OneRootEach(s')
  {
    forall r, r' | r in s'.roots && r' in s'.roots && r != r'
      ensures Voters(s', r) !! Voters(s', r')
    {
      assert r in s.roots && r' in s.roots ==> Voters(s, r) !! Voters(s, r');
    }
  }

  /** A new head is tracked, without voters unless it had some, in place of a least-voted root if need be. */
  ghost predicate IsNewHead(s: SlotVotes, s': SlotVotes, block: nat, victim: nat)
  {
    && s'.layout == s.layout && s'.headRoot == block
    && (forall r :: r in s'.roots ==> Voters(s', r) == Voters(s, r))
    && s'.roots.Keys == KeysAfter(s, block, victim)
    && (s.roots != map[] ==> LeastVoted(s, victim))
  }

  function KeysAfter(s: SlotVotes, block: nat, victim: nat): set<nat>
  {
    if block in s.roots || |s.roots| < MAX_TRACKED_ROOTS then s.roots.Keys + {block} else s.roots.Keys - {victim} + {block}
  }

  lemma HeadKeys(s: SlotVotes, block: nat, victim: nat)
    requires block in WithHead(s, block, victim).roots
    ensures WithHead(s, block, victim).roots.Keys == KeysAfter(s, block, victim)
  {
  }

  lemma HeadIsNew(threshold: nat, s: SlotVotes, s': SlotVotes, block: nat) returns (victim: nat)
    requires SlotOk(threshold, s) && IsHeadState(threshold, s, s', block) && s.headRoot != block
    ensures IsNewHead(s, s', block, victim)
  {
    HeadStateMeans(threshold, s, s', block);
    victim :| IsHeadFor(threshold, s, s', block, victim);
    WithHeadIsOk(threshold, s, block, victim);
    HeadCheckedIsOk(threshold, WithHead(s, block, victim), block);
    HeadKeys(s, block, victim);
  }

  // ----- eight members -----

  function UpTo(n: nat): (s: seq<nat>)
    ensures |s| == n && forall i :: 0 <= i < n ==> s[i] == i
  {
    if n == 0 then [] else UpTo(n - 1) + [n - 1]
  }

  function Times(n: nat, w: nat): (s: seq<nat>)
    ensures |s| == n && forall i :: 0 <= i < n ==> s[i] == w
  {
    if n == 0 then [] else Times(n - 1, w) + [w]
  }

  const EIGHT: seq<nat> := UpTo(8)
  const WEIGHTS: seq<nat> := Times(8, 32)

  /** One committee of eight members, all of the same weight. */
  const DUTIES := Basis([EIGHT], EIGHT, WEIGHTS)

  function ChainAt(slot: nat): Chain
  {
    Chain(slot, 1, s => 0, e => Some(EpochStats([[EIGHT]], EIGHT, WEIGHTS)))
  }

  lemma FlatOfOne(part: seq<nat>)
    ensures Flat([part]) == part && Flat([part][..0]) == []
  {
    assert [part][..0] == [];
  }

  lemma SelectAll(values: seq<nat>)
    ensures Select(values, UpTo(|values|)) == values
  {
  }

  lemma EightLaidOut(layout: Layout)
    requires LaidOut(layout, DUTIES)
    ensures layout.totalMembers == 8 && layout.validators == EIGHT && layout.weights == WEIGHTS && Distinct(layout.validators)
  {
    FlatOfOne(EIGHT);
    SelectAll(EIGHT);
    SelectAll(WEIGHTS);
  }

  lemma EightSeats(layout: Layout, v: nat)
    requires LaidOut(layout, DUTIES) && v < 8
    ensures v in layout.positions && layout.positions[v] == v && |layout.offsets| == |layout.sizes| && Accepted(layout, v, 0)
  {
    EightLaidOut(layout);
    FlatOfOne(EIGHT);
    OnlyPlace(layout, DUTIES, v);
  }

  lemma {:induction false} SumOfEqual(weights: seq<nat>, w: nat)
    requires forall i :: 0 <= i < |weights| ==> weights[i] == w
    ensures Sum(weights) == |weights| * w
  {
    if weights != [] {
      SumOfEqual(weights[..|weights| - 1], w);
      OneMoreTimes(|weights| - 1, w);
    }
  }

  /** One of the eight weighs 12.5 percent of the slot. */
  lemma OneWeighsEnough(layout: Layout, v: nat)
    requires LaidOut(layout, DUTIES) && v < 8
    ensures VotesMeet(10, layout, {v})
  {
    EightLaidOut(layout);
    LayoutIsOk(layout, DUTIES);
    NoWeight(WEIGHTS, 8);
    WeightOfOneMore(WEIGHTS, {}, 8, v);
    assert {} + {v} == {v};
    SumOfEqual(WEIGHTS, 32);
  }

  // ----- the stages of the run -----

  /** The head has these voters, and roots 2 to k + 1 have two each. */
  ghost predicate Looks(s: SlotVotes, head: nat, own: set<nat>, k: nat)
  {
    && LaidOut(s.layout, DUTIES) && s.headRoot == head && Voters(s, head) == own
    && Tracks(s.roots.Keys, head, k) && TwoEach(s, k)
  }

  ghost predicate TwoEach(s: SlotVotes, k: nat)
  {
    forall r: nat :: 2 <= r <= k + 1 ==> |Voters(s, r)| == 2
  }

  ghost predicate Tracks(roots: set<nat>, head: nat, k: nat)
  {
    (head == 1 || head == 5) && |roots| == k + 1 && forall r: nat :: r in roots <==> r == head || 2 <= r <= k + 1
  }

  lemma TracksOneMore(roots: set<nat>, head: nat, k: nat)
    requires Tracks(roots, head, k) && k < 3
    ensures k + 2 !in roots && Tracks(roots + {k + 2}, head, k + 1)
  {
  }

  lemma TracksAnother(roots: set<nat>, head: nat, block: nat)
    requires Tracks(roots, head, 3) && (block == 1 || block == 5) && block != head
    ensures head in roots && block !in roots && Tracks(roots - {head} + {block}, block, 3)
  {
  }

  lemma HeadBallot(s: SlotVotes, s': SlotVotes, head: nat, own: set<nat>, k: nat, pos: nat)
    requires k <= 3 && Looks(s, head, own, k) && IsBallot(s, s', head, pos)
    ensures Looks(s', head, own + {pos}, k)
  {
    assert s'.roots.Keys == s.roots.Keys;
    assert forall r: nat :: 2 <= r <= k + 1 ==> Voters(s', r) == Voters(s, r);
  }

  lemma TwoBallots(s: SlotVotes, s': SlotVotes, s'': SlotVotes, head: nat, own: set<nat>, k: nat, v: nat, v': nat)
    requires k < 3 && Looks(s, head, own, k) && v != v'
    requires IsBallot(s, s', k + 2, v) && IsBallot(s', s'', k + 2, v')
    ensures Looks(s'', head, own, k + 1)
  {
    TracksOneMore(s.roots.Keys, head, k);
    assert s''.roots.Keys == s.roots.Keys + {k + 2};
    NewPair(s, s', s'', k, v, v');
  }

  lemma NewPair(s: SlotVotes, s': SlotVotes, s'': SlotVotes, k: nat, v: nat, v': nat)
    requires TwoEach(s, k) && v != v' && k + 2 !in s.roots
    requires IsBallot(s, s', k + 2, v) && IsBallot(s', s'', k + 2, v')
    ensures TwoEach(s'', k + 1)
  {
    SizeOfPair(s, s', s'', k + 2, v, v');
    forall r: nat | 2 <= r <= k + 1
      ensures |Voters(s'', r)| == 2
    {
      SameVoters(s, s', s'', k + 2, v, v', r);
    }
  }

  lemma SizeOfPair(s: SlotVotes, s': SlotVotes, s'': SlotVotes, root: nat, v: nat, v': nat)
    requires v != v' && root !in s.roots && IsBallot(s, s', root, v) && IsBallot(s', s'', root, v')
    ensures |Voters(s'', root)| == 2
  {
    assert Voters(s'', root) == {} + {v} + {v'};
    PairSize(v, v');
  }

  lemma SameVoters(s: SlotVotes, s': SlotVotes, s'': SlotVotes, root: nat, v: nat, v': nat, r: nat)
    requires IsBallot(s, s', root, v) && IsBallot(s', s'', root, v') && r != root
    ensures Voters(s'', r) == Voters(s, r)
  {
    assert Voters(s', r) == Voters(s, r);
  }

  lemma PairSize(v: nat, v': nat)
    requires v != v'
    ensures |{} + {v} + {v'}| == 2
  {
    assert {} + {v} + {v'} == {v, v'};
  }

  /** The head has fewer votes than the other roots. */
  lemma HeadIsLeast(threshold: nat, s: SlotVotes, head: nat, own: set<nat>, victim: nat)
    requires RootsOk(threshold, s) && Looks(s, head, own, 3) && |own| < 2 && LeastVoted(s, victim)
    ensures victim == head
  {
    assert Sound(threshold, s.layout, s.roots[victim]) && Sound(threshold, s.layout, s.roots[head]);
    assert |Voters(s, victim)| <= |Voters(s, head)|;
  }

  /** So it has to make room for another head. */
  lemma HeadSwapped(threshold: nat, s: SlotVotes, s': SlotVotes, head: nat, own: set<nat>, block: nat, victim: nat)
    requires RootsOk(threshold, s) && (block == 1 || block == 5) && block != head && |own| < 2
    requires Looks(s, head, own, 3) && IsNewHead(s, s', block, victim)
    ensures Looks(s', block, {}, 3) && head !in s'.roots
  {
    TracksAnother(s.roots.Keys, head, block);
    HeadIsLeast(threshold, s, head, own, victim);
    assert |s.roots| == |s.roots.Keys|;
    assert s'.roots.Keys == s.roots.Keys - {head} + {block};
    assert forall r: nat :: 2 <= r <= 4 ==> Voters(s', r) == Voters(s, r);
  }

  /** The head is announced once one of the eight has voted for it. */
  lemma HeadIsAnnounced(s: SlotVotes, head: nat, v: nat, k: nat)
    requires SlotOk(10, s) && Looks(s, head, {v}, k) && v < 8
    ensures head in s.roots && s.roots[head].thresholdFired
  {
    OneWeighsEnough(s.layout, v);
    HeadFiredIffCrossed(10, s);
  }

  // ----- the run -----

  ghost predicate At(t: Tracker, slot: nat, s: SlotVotes)
    reads t
  {
    t.Valid() && t.threshold == 10 && slot in t.slotStates && t.slotStates[slot] == s
  }

  method Vote(t: Tracker, slot: nat, root: nat, v: nat, ghost s: SlotVotes) returns (ghost s': SlotVotes)
    requires At(t, slot, s) && LaidOut(s.layout, DUTIES) && v < 8
    requires root in s.roots || |s.roots| < MAX_TRACKED_ROOTS
    modifies t
    ensures At(t, slot, s') && IsBallot(s, s', root, v) && t.lost == old(t.lost)
  {
    assert SlotOk(10, s);
    EightSeats(s.layout, v);
    var event := SingleAttestation(slot, root, 0, v, 0);
    t.HandleSingleAttestation(event, ChainAt(slot));
    s' := t.slotStates[slot];
    VoteIsBallot(10, s, s', event, VoteTimeOffset(0, 0));
  }

  method Head(t: Tracker, slot: nat, block: nat, ghost s: SlotVotes) returns (ghost s': SlotVotes, ghost victim: nat)
    requires At(t, slot, s) && s.headRoot != block
    modifies t
    ensures At(t, slot, s') && IsNewHead(s, s', block, victim)
    ensures t.lost == old(t.lost) + multiset(Dropped(old(t.slotStates), t.slotStates))
  {
    assert SlotOk(10, s);
    t.HandleHeadEvent(slot, block, ChainAt(slot));
    s' := t.slotStates[slot];
    victim := HeadIsNew(10, s, s', block);
  }

  method Start(slot: nat) returns (t: Tracker, ghost s: SlotVotes)
    ensures fresh(t) && At(t, slot, s) && Looks(s, 1, {}, 0) && t.lost == multiset{}
  {
    t := new Tracker(10);
    var chain := ChainAt(slot);
    t.HandleHeadEvent(slot, 1, chain);
    assert Creatable(chain, slot) && BasisOf(chain, slot) == DUTIES;
    s := t.slotStates[slot];
    assert LaidOutAt(t.slotStates, t.bases, slot);
    LayoutIsOk(s.layout, DUTIES);
    ghost var empty := SlotVotes(s.layout, map[], 0);
    assert SlotOk(10, empty);
    ghost var victim := HeadIsNew(10, empty, s, 1);
    assert s.roots.Keys == {1};
  }

  lemma LostAt(lost: multiset<Key>, states: States, states': States, k: Key)
    ensures (lost + multiset(Dropped(states, states')))[k] ==
      lost[k] + if HasFired(states, k) && !TrackedAt(states', k) then 1 else 0
  {
    assert k == (k.0, k.1);
    assert k in Dropped(states, states') <==> HasFired(states, k) && !TrackedAt(states', k);
  }

  method SecondVote(t: Tracker, slot: nat, k: nat, ghost s: SlotVotes, ghost s': SlotVotes) returns (ghost s'': SlotVotes)
    requires At(t, slot, s') && Looks(s, 1, {0}, k) && k < 3 && IsBallot(s, s', k + 2, 2 * k + 1)
    modifies t
    ensures At(t, slot, s'') && Looks(s'', 1, {0}, k + 1) && t.lost == old(t.lost)
  {
    s'' := Vote(t, slot, k + 2, 2 * k + 2, s');
    TwoBallots(s, s', s'', 1, {0}, k, 2 * k + 1, 2 * k + 2);
  }

  /** Roots 2 to 4 get two votes each. */
  method Fill(t: Tracker, slot: nat, ghost s: SlotVotes) returns (ghost s': SlotVotes)
    requires At(t, slot, s) && Looks(s, 1, {0}, 0)
    modifies t
    ensures At(t, slot, s') && Looks(s', 1, {0}, 3) && t.lost == old(t.lost)
  {
    s' := s;
    for k := 0 to 3
      invariant At(t, slot, s') && Looks(s', 1, {0}, k) && t.lost == old(t.lost)
    {
      TracksOneMore(s'.roots.Keys, 1, k);
      ghost var s1 := Vote(t, slot, k + 2, 2 * k + 1, s');
      s' := SecondVote(t, slot, k, s', s1);
    }
  }

  /** The new head 5 evicts root 1. */
  method Evict(t: Tracker, slot: nat, ghost s: SlotVotes) returns (ghost s': SlotVotes)
    requires At(t, slot, s) && Looks(s, 1, {0}, 3)
    modifies t
    ensures At(t, slot, s') && Looks(s', 5, {}, 3) && 1 !in s'.roots && t.lost[(slot, 1)] == old(t.lost[(slot, 1)]) + 1
  {
    assert SlotOk(10, s);
    HeadIsAnnounced(s, 1, 0, 3);
    ghost var lost, states := t.lost, t.slotStates;
    ghost var victim;
    s', victim := Head(t, slot, 5, s);
    HeadSwapped(10, s, s', 1, {0}, 5, victim);
    LostAt(lost, states, t.slotStates, (slot, 1));
  }

  /** Root 1 is the head again, in place of 5. */
  method Return(t: Tracker, slot: nat, ghost s: SlotVotes) returns (ghost s': SlotVotes)
    requires At(t, slot, s) && Looks(s, 5, {}, 3) && 1 !in s.roots
    modifies t
    ensures At(t, slot, s') && Looks(s', 1, {}, 3) && t.lost[(slot, 1)] == old(t.lost[(slot, 1)])
  {
    assert SlotOk(10, s);
    ghost var lost, states := t.lost, t.slotStates;
    ghost var victim;
    s', victim := Head(t, slot, 1, s);
    HeadSwapped(10, s, s', 5, {}, 1, victim);
    LostAt(lost, states, t.slotStates, (slot, 1));
  }

  /** A vote of one of the eight for the head. */
  method VoteForHead(t: Tracker, slot: nat, v: nat, k: nat, ghost s: SlotVotes) returns (ghost s': SlotVotes)
    requires At(t, slot, s) && Looks(s, 1, {}, k) && v < 8 && k <= 3
    modifies t
    ensures At(t, slot, s') && Looks(s', 1, {v}, k) && t.lost == old(t.lost)
  {
    s' := Vote(t, slot, 1, v, s);
    HeadBallot(s, s', 1, {}, k, v);
    assert {} + {v} == {v};
  }

  /**
   A run in which the threshold update of a root is sent twice, although each of the eight members votes only once: root 1
   is announced as the head by one vote, evicted by another head, and announced by another vote when it is head again.
   */
  method SecondAnnouncement(slot: nat) returns (t: Tracker)
    ensures fresh(t) && t.Valid() && t.threshold == 10 && slot in t.slotStates && Looks(t.slotStates[slot], 1, {7}, 3)
    ensures ByThreshold(t.fired)[(slot, 1)] == 2
  {
    ghost var s;
    t, s := Start(slot);
    s := VoteForHead(t, slot, 0, 0, s);
    s := Fill(t, slot, s);
    s := Evict(t, slot, s);
    s := Return(t, slot, s);
    s := VoteForHead(t, slot, 7, 3, s);
    assert SlotOk(10, s);
    HeadIsAnnounced(s, 1, 7, 3);
    assert OnceAt(t.fired, t.lost, t.slotStates, (slot, 1));
  }
}
