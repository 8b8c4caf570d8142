/**
 The states of all tracked slots of the head-vote tracker (pkg/chain/headvotes.go), in validators as well as in bit
 positions, and the updates sent for them.
 */
module HeadVoteStates {
  import opened Common
  import opened VoteBits
  import opened AggregateBits
  import opened HeadVotes

  type States = map<nat, SlotVotes>

  /** A slot and a block root. */
  type Key = (nat, nat)

  ghost predicate StatesOk(threshold: nat, states: States)
  {
    forall s {:trigger SlotOk(threshold, states[s])} :: s in states ==> SlotOk(threshold, states[s])
  }

  predicate TrackedAt(states: States, k: Key)
  {
    k.0 in states && k.1 in states[k.0].roots
  }

  function RootAt(states: States, slot: nat, root: nat): Option<RootVotes>
  {
    if TrackedAt(states, (slot, root)) then Some(states[slot].roots[root]) else None
  }

  ghost function VotersAt(states: States, slot: nat, root: nat): set<nat>
  {
    if slot in states then Voters(states[slot], root) else {}
  }

  // ----- the duties behind a layout -----

  datatype Basis = Basis(committees: seq<seq<nat>>, active: seq<nat>, balances: seq<nat>)

  ghost predicate LaidOut(layout: Layout, b: Basis)
  {
    IsLayout(layout, b.committees, b.active, b.balances)
  }

  function BasisAt(bases: map<nat, Basis>, s: nat): Basis
  {
    if s in bases then bases[s] else Basis([], [], [])
  }

  ghost predicate LaidOutAt(states: States, bases: map<nat, Basis>, s: nat)
  {
    s in states ==> s in bases && LaidOut(states[s].layout, bases[s])
  }

  /** Every slot's layout is that of its duties. */
  ghost predicate LayoutsAre(states: States, bases: map<nat, Basis>)
  {
    forall s {:trigger LaidOutAt(states, bases, s)} :: LaidOutAt(states, bases, s)
  }

  /** The duties give the validator a seat in committee c. */
  ghost predicate SitsIn(b: Basis, validator: nat, c: nat)
  {
    exists j: nat :: SeatAt(b, c, j, validator)
  }

  /** The seat that the attester claims is the one that the layout gives it. */
  predicate Accepted(layout: Layout, attester: nat, committeeIndex: nat)
    requires |layout.offsets| == |layout.sizes|
  {
    && attester in layout.positions && committeeIndex < |layout.offsets|
    && layout.offsets[committeeIndex] <= layout.positions[attester] < layout.offsets[committeeIndex] + layout.sizes[committeeIndex]
  }

  ghost predicate SeatAt(b: Basis, c: nat, j: nat, validator: nat)
  {
    c < |b.committees| && j < |b.committees[c]| && b.committees[c][j] < |b.active| && b.active[b.committees[c][j]] == validator
  }

  /** Member j of committee c is at its place in the layout. */
  lemma SeatPlace(layout: Layout, b: Basis, c: nat, j: nat)
    requires LaidOut(layout, b) && c < |b.committees| && j < |b.committees[c]|
    ensures layout.offsets[c] + j < layout.totalMembers && j < layout.sizes[c]
    ensures b.committees[c][j] < |b.active| && layout.validators[layout.offsets[c] + j] == b.active[b.committees[c][j]]
  {
    FlatPrefix(b.committees, c, j);
    assert Flat(b.committees)[layout.offsets[c] + j] == b.committees[c][j];
  }

  /** An accepted attester of the real committees votes at its own seat, in the committee that it claims. */
  lemma AcceptedSeat(layout: Layout, b: Basis, attester: nat, c: nat)
    requires LaidOut(layout, b) && Distinct(layout.validators)
    ensures Accepted(layout, attester, c) <==> SitsIn(b, attester, c)
  {
    if Accepted(layout, attester, c) {
      var j := layout.positions[attester] - layout.offsets[c];
      SeatPlace(layout, b, c, j);
      assert SeatAt(b, c, j, attester);
    }
    if SitsIn(b, attester, c) {
      var j: nat :| SeatAt(b, c, j, attester);
      SeatPlace(layout, b, c, j);
      OnlyPlace(layout, b, layout.offsets[c] + j);
    }
  }

  lemma OnlyPlace(layout: Layout, b: Basis, p: nat)
    requires LaidOut(layout, b) && Distinct(layout.validators) && p < layout.totalMembers
    ensures layout.validators[p] in layout.positions && layout.positions[layout.validators[p]] == p
  {
    PositionsAreInverse(layout, b.committees, b.active, b.balances);
  }

  lemma LayoutIsOk(layout: Layout, b: Basis)
    requires LaidOut(layout, b)
    ensures LayoutOk(layout)
  {
    LayoutHasShape(layout, b.committees, b.active, b.balances);
  }

  // ----- positions as validators -----

  ghost function ValidatorsOf(layout: Layout, positions: set<nat>): set<nat>
  {
    set p | p in positions && p < |layout.validators| :: layout.validators[p]
  }

  /** The validators whose votes for the root are counted. */
  ghost function VotedFor(states: States, slot: nat, root: nat): set<nat>
  {
    if slot in states then ValidatorsOf(states[slot].layout, Voters(states[slot], root)) else {}
  }

  lemma OneMoreValidator(layout: Layout, b: Basis, positions: set<nat>, attester: nat)
    requires LaidOut(layout, b) && attester in layout.positions
    ensures ValidatorsOf(layout, positions + {layout.positions[attester]}) == ValidatorsOf(layout, positions) + {attester}
  {
    var pos := layout.positions[attester];
    assert pos < |layout.validators| && layout.validators[pos] == attester;
    forall v
      ensures v in ValidatorsOf(layout, positions + {pos}) <==> v in ValidatorsOf(layout, positions) + {attester}
    {
      if v == attester {
        assert pos in positions + {pos};
      }
    }
  }

  // ----- one slot of the states changes -----

  ghost predicate OnlyAt(states: States, states': States, slot: nat)
  {
    states' == states || (slot in states' && states' == states[slot := states'[slot]])
  }

  ghost predicate KeepsLayout(state: SlotVotes, states: States, slot: nat)
  {
    slot in states && states[slot].layout == state.layout
  }

  ghost predicate KeepsHead(state: SlotVotes, states: States, slot: nat)
  {
    KeepsLayout(state, states, slot) && states[slot].headRoot == state.headRoot
  }

  /** Of one slot's states, only that of the root may have changed. */
  ghost predicate OnlyRootAt(states: States, states': States, slot: nat, root: nat)
  {
    OnlyAt(states, states', slot) && forall r :: r != root ==> RootAt(states', slot, r) == RootAt(states, slot, r)
  }

  lemma OnlyAtTwice(states: States, states': States, states'': States, slot: nat)
    requires OnlyAt(states, states', slot) && OnlyAt(states', states'', slot)
    ensures OnlyAt(states, states'', slot)
  {
    if states' != states && states'' != states' {
      assert states'' == states[slot := states''[slot]];
    }
  }

  lemma OnlyRootTwice(states: States, states': States, states'': States, slot: nat, root: nat)
    requires OnlyRootAt(states, states', slot, root) && OnlyRootAt(states', states'', slot, root)
    ensures OnlyRootAt(states, states'', slot, root)
  {
    forall r | r != root
      ensures RootAt(states'', slot, r) == RootAt(states, slot, r)
    {
      assert RootAt(states'', slot, r) == RootAt(states', slot, r);
    }
  }

  lemma StoredLayout(states: States, bases: map<nat, Basis>, slot: nat, state: SlotVotes)
    requires LayoutsAre(states, bases) && slot in states && state.layout == states[slot].layout
    ensures LayoutsAre(states[slot := state], bases)
  {
    var states' := states[slot := state];
    forall s
      ensures LaidOutAt(states', bases, s)
    {
      assert LaidOutAt(states, bases, s);
    }
  }

  lemma NewLayout(states: States, bases: map<nat, Basis>, slot: nat, state: SlotVotes, b: Basis)
    requires LayoutsAre(states, bases) && slot !in states && LaidOut(state.layout, b)
    ensures LayoutsAre(states[slot := state], bases[slot := b])
  {
    var states', bases' := states[slot := state], bases[slot := b];
    forall s
      ensures LaidOutAt(states', bases', s)
    {
      assert LaidOutAt(states, bases, s);
    }
  }

  lemma FewerLayouts(states: States, bases: map<nat, Basis>, states': States)
    requires LayoutsAre(states, bases) && forall s :: s in states' ==> s in states && states'[s].layout == states[s].layout
    ensures LayoutsAre(states', bases)
  {
    forall s
      ensures LaidOutAt(states', bases, s)
    {
      assert LaidOutAt(states, bases, s);
    }
  }

  lemma StatesStored(threshold: nat, states: States, slot: nat, state: SlotVotes)
    requires StatesOk(threshold, states) && SlotOk(threshold, state)
    ensures StatesOk(threshold, states[slot := state])
  {
    var states' := states[slot := state];
    forall s | s in states'
      ensures SlotOk(threshold, states'[s])
    {
      assert s != slot ==> SlotOk(threshold, states[s]);
    }
  }

  lemma FewerStates(threshold: nat, states: States, states': States)
    requires StatesOk(threshold, states) && forall s :: s in states' ==> s in states && states'[s] == states[s]
    ensures StatesOk(threshold, states')
  {
    forall s | s in states'
      ensures SlotOk(threshold, states'[s])
    {
      assert SlotOk(threshold, states[s]);
    }
  }

  // ----- threshold updates are sent once per tracked life of a root -----

  /** The root is tracked and marked as announced. */
  predicate HasFired(states: States, k: Key)
  {
    TrackedAt(states, k) && states[k.0].roots[k.1].thresholdFired
  }

  /** How often the threshold check has sent an update, per slot and root. */
  ghost function ByThreshold(fired: seq<Firing>): multiset<Key>
  {
    if fired == [] then multiset{}
    else
      var last := fired[|fired| - 1];
      ByThreshold(fired[..|fired| - 1]) + if last.byThreshold then multiset{(last.update.slot, last.update.root)} else multiset{}
  }

  lemma ByThresholdLast(fired: seq<Firing>, f: Firing)
    ensures ByThreshold(fired + [f]) ==
      ByThreshold(fired) + if f.byThreshold then multiset{(f.update.slot, f.update.root)} else multiset{}
  {
    assert (fired + [f])[..|fired|] == fired;
  }

  ghost predicate OnceAt(fired: seq<Firing>, lost: multiset<Key>, states: States, k: Key)
  {
    ByThreshold(fired)[k] == lost[k] + if HasFired(states, k) then 1 else 0
  }

  /** Per root: one update for every announced life that was dropped, and one if the root is announced now. */
  ghost predicate OnceEach(fired: seq<Firing>, lost: multiset<Key>, states: States)
  {
    forall k {:trigger OnceAt(fired, lost, states, k)} :: OnceAt(fired, lost, states, k)
  }

  ghost predicate SameFlags(states: States, states': States)
  {
    forall k: Key :: HasFired(states', k) <==> HasFired(states, k)
  }

  /** The announced roots that are not tracked any more. */
  ghost function Dropped(states: States, states': States): set<Key>
  {
    set s, r | s in states && r in states[s].roots && states[s].roots[r].thresholdFired && !TrackedAt(states', (s, r)) :: (s, r)
  }

  lemma SameFlagsOnce(fired: seq<Firing>, lost: multiset<Key>, states: States, states': States)
    requires OnceEach(fired, lost, states) && SameFlags(states, states')
    ensures OnceEach(fired, lost, states')
  {
    forall k
      ensures OnceAt(fired, lost, states', k)
    {
      assert OnceAt(fired, lost, states, k);
    }
  }

  lemma FlushedOnce(fired: seq<Firing>, lost: multiset<Key>, states: States, states': States, u: Update)
    requires OnceEach(fired, lost, states) && SameFlags(states, states')
    ensures OnceEach(fired + [Firing(u, false)], lost, states')
  {
    ByThresholdLast(fired, Firing(u, false));
    forall k
      ensures OnceAt(fired + [Firing(u, false)], lost, states', k)
    {
      assert OnceAt(fired, lost, states, k);
    }
  }

  lemma AnnouncedOnce(fired: seq<Firing>, lost: multiset<Key>, states: States, states': States, u: Update)
    requires OnceEach(fired, lost, states)
    requires !HasFired(states, (u.slot, u.root)) && HasFired(states', (u.slot, u.root))
    requires forall k: Key :: k != (u.slot, u.root) ==> (HasFired(states', k) <==> HasFired(states, k))
    ensures OnceEach(fired + [Firing(u, true)], lost, states')
  {
    ByThresholdLast(fired, Firing(u, true));
    forall k
      ensures OnceAt(fired + [Firing(u, true)], lost, states', k)
    {
      assert OnceAt(fired, lost, states, k);
    }
  }

  lemma DroppedOnce(fired: seq<Firing>, lost: multiset<Key>, states: States, states': States)
    requires OnceEach(fired, lost, states)
    requires forall k: Key :: TrackedAt(states', k) ==> (HasFired(states', k) <==> HasFired(states, k))
    ensures OnceEach(fired, lost + multiset(Dropped(states, states')), states')
  {
    forall k
      ensures OnceAt(fired, lost + multiset(Dropped(states, states')), states', k)
    {
      assert OnceAt(fired, lost, states, k);
      assert k == (k.0, k.1);
      assert k in Dropped(states, states') <==> HasFired(states, k) && !TrackedAt(states', k);
    }
  }

  /** The update for the key is sent exactly when its root becomes marked, and tells the new counters. */
  ghost predicate Announces(threshold: nat, states: States, states': States, fired: seq<Firing>, fired': seq<Firing>, k: Key)
  {
    fired' == fired +
      if HasFired(states', k) && !HasFired(states, k) then [Firing(UpdateOf(threshold, k.0, k.1, states'[k.0]), true)] else []
  }

  function UpdateOf(threshold: nat, slot: nat, root: nat, s: SlotVotes): Update
    requires root in s.roots
  {
    Update(slot, root, s.roots[root].participatingETH, s.roots[root].voteCount, Crossed(threshold, s.layout, s.roots[root]))
  }

  /** What an update tells are the counters recomputed from the votes. */
  lemma UpdateTells(threshold: nat, s: SlotVotes, slot: nat, root: nat)
    requires SlotOk(threshold, s) && root in s.roots
    ensures var u := UpdateOf(threshold, slot, root, s);
      && u.slot == slot && u.root == root && u.voteCount == |Voters(s, root)|
      && u.participationETH == WeightOf(s.layout.weights, Voters(s, root), s.layout.totalMembers)
      && (u.thresholdMet <==>
            && threshold > 0 && Sum(s.layout.weights) > 0
            && 100 * WeightOf(s.layout.weights, Voters(s, root), s.layout.totalMembers) >= threshold * Sum(s.layout.weights))
  {
    assert Sound(threshold, s.layout, s.roots[root]);
    CrossedIff(threshold, s.layout, s.roots[root]);
  }

  /**
   A root that is not marked yet is marked and announced by the check if it has crossed and is the head, or leads without a
   tracked head; only then, although with equal counts another root may be taken for the leader.
   */
  lemma FiresForLeader(threshold: nat, s: SlotVotes, root: nat, primary: nat)
    requires root in s.roots && !s.roots[root].thresholdFired && IsPrimary(s, primary)
    ensures MustFire(threshold, s, root, primary) ==>
      && Crossed(threshold, s.layout, s.roots[root])
      && (s.headRoot in s.roots ==> root == s.headRoot)
      && (s.headRoot !in s.roots ==> forall r :: r in s.roots ==> s.roots[r].voteCount <= s.roots[root].voteCount)
    ensures Crossed(threshold, s.layout, s.roots[root]) && root == s.headRoot ==> MustFire(threshold, s, root, primary)
    ensures Crossed(threshold, s.layout, s.roots[root]) && s.headRoot !in s.roots
         && (forall r :: r in s.roots && r != root ==> s.roots[r].voteCount < s.roots[root].voteCount)
      ==> MustFire(threshold, s, root, primary)
  {
  }

  /** The roots of the new state are marked as those of the old one are. */
  ghost predicate FlagsKept(s: SlotVotes, s': SlotVotes)
  {
    forall r :: r in s'.roots ==> (s'.roots[r].thresholdFired <==> r in s.roots && s.roots[r].thresholdFired)
  }

  lemma StoredOnce(fired: seq<Firing>, lost: multiset<Key>, states: States, slot: nat, state: SlotVotes)
    requires OnceEach(fired, lost, states) && slot in states && FlagsKept(states[slot], state)
    requires states[slot].roots.Keys <= state.roots.Keys
    ensures OnceEach(fired, lost, states[slot := state]) && SameFlags(states, states[slot := state])
  {
    assert SameFlags(states, states[slot := state]);
    SameFlagsOnce(fired, lost, states, states[slot := state]);
  }

  /** A slot's new state, in which roots may be missing, and then the threshold check for one of its roots. */
  lemma SettledOnce(threshold: nat, fired: seq<Firing>, lost: multiset<Key>, states: States, slot: nat, state: SlotVotes,
                    root: nat, primary: nat)
    requires OnceEach(fired, lost, states) && slot in states && FlagsKept(states[slot], state) && root in state.roots
    ensures var states' := states[slot := MaybeFired(threshold, state, root, primary)];
      var fired' := fired + if MustFire(threshold, state, root, primary)
                            then [Firing(UpdateOf(threshold, slot, root, state), true)] else [];
      && OnceEach(fired', lost + multiset(Dropped(states, states')), states')
      && Announces(threshold, states, states', fired, fired', (slot, root))
  {
    var mid, states' := states[slot := state], states[slot := MaybeFired(threshold, state, root, primary)];
    assert mid[slot] == state && states'[slot] == MaybeFired(threshold, state, root, primary);
    DroppedOnce(fired, lost, states, mid);
    assert states'[slot].roots.Keys == state.roots.Keys;
    SameDropped(states, mid, states');
    if MustFire(threshold, state, root, primary) {
      FiredOnlyAt(states, slot, state, root);
      AnnouncedOnce(fired, lost + multiset(Dropped(states, mid)), mid, states', UpdateOf(threshold, slot, root, state));
      assert HasFired(states', (slot, root)) && !HasFired(states, (slot, root));
    } else {
      assert HasFired(states', (slot, root)) ==> HasFired(states, (slot, root));
      assert fired + [] == fired;
    }
  }

  lemma FiredOnlyAt(states: States, slot: nat, state: SlotVotes, root: nat)
    requires slot in states && root in state.roots
    ensures var mid, states' := states[slot := state], states[slot := Fired(state, root, true)];
      HasFired(states', (slot, root)) && forall k: Key :: k != (slot, root) ==> (HasFired(states', k) <==> HasFired(mid, k))
  {
    var mid, states' := states[slot := state], states[slot := Fired(state, root, true)];
    forall k: Key | k != (slot, root)
      ensures HasFired(states', k) <==> HasFired(mid, k)
    {
      assert k == (k.0, k.1);
    }
  }

  lemma SameDropped(states: States, states': States, states'': States)
    requires forall k: Key :: TrackedAt(states', k) <==> TrackedAt(states'', k)
    ensures Dropped(states, states') == Dropped(states, states'')
  {
  }

  /** A later change that keeps marks and counters of the root leaves what was sent as it should be. */
  lemma AnnouncesKept(threshold: nat, states: States, states': States, states'': States, fired: seq<Firing>,
                      fired': seq<Firing>, k: Key)
    requires Announces(threshold, states, states', fired, fired', k) && (HasFired(states', k) <==> HasFired(states'', k))
    requires HasFired(states', k) ==> UpdateOf(threshold, k.0, k.1, states'[k.0]) == UpdateOf(threshold, k.0, k.1, states''[k.0])
    ensures Announces(threshold, states, states'', fired, fired', k)
  {
  }

  /** What two steps drop together. */
  lemma DroppedTwice(states: States, states': States, states'': States)
    requires forall k: Key :: TrackedAt(states'', k) ==> TrackedAt(states', k)
    requires forall k: Key :: HasFired(states', k) && !TrackedAt(states'', k) ==> HasFired(states, k)
    requires forall k: Key :: HasFired(states, k) && TrackedAt(states', k) ==> HasFired(states', k)
    ensures multiset(Dropped(states, states')) + multiset(Dropped(states', states'')) == multiset(Dropped(states, states''))
  {
    var d, d', d'' := Dropped(states, states'), Dropped(states', states''), Dropped(states, states'');
    forall k: Key
      ensures k in d <==> HasFired(states, k) && !TrackedAt(states', k)
      ensures k in d' <==> HasFired(states', k) && !TrackedAt(states'', k)
      ensures k in d'' <==> HasFired(states, k) && !TrackedAt(states'', k)
    {
      assert k == (k.0, k.1);
    }
    assert forall k: Key :: (multiset(d) + multiset(d'))[k] == multiset(d'')[k];
  }

  lemma NothingDropped(states: States, slot: nat, state: SlotVotes)
    requires slot in states && states[slot].roots.Keys <= state.roots.Keys
    ensures Dropped(states, states[slot := state]) == {}
  {
  }
}
