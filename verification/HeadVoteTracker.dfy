/** The event handlers of the head-vote tracker (pkg/chain/headvotes.go). */
module HeadVoteTracker {
  import opened Common
  import opened VoteBits
  import opened AggregateBits
  import opened HeadVotes
  import opened HeadVoteStates
  import opened HeadVoteCoverage

  datatype SingleAttestation = SingleAttestation(slot: nat, root: nat, committeeIndex: nat, attester: nat, receivedAt: int)

  /** What the chain service answers while one event is handled. */
  datatype Chain = Chain(currentSlot: nat, slotsPerEpoch: nat, slotToTime: nat -> int, stats: nat -> Option<EpochStats>)

  ghost predicate ChainOk(chain: Chain)
  {
    && chain.slotsPerEpoch > 0
    && forall e :: chain.stats(e).Some? ==>
      && |chain.stats(e).value.activeIndices| == |chain.stats(e).value.effectiveBalances|
      && forall d :: 0 <= d < |chain.stats(e).value.duties| ==>
        MembersInRange(chain.stats(e).value.duties[d], |chain.stats(e).value.activeIndices|)
  }

  // ----- creating a slot -----

  /** From 8 slots behind the wall clock to 1 ahead of it, with duties for the slot. */
  predicate Creatable(chain: Chain, slot: nat)
    requires chain.slotsPerEpoch > 0
  {
    && slot + SLOT_RETENTION >= chain.currentSlot && slot <= chain.currentSlot + 1
    && chain.stats(slot / chain.slotsPerEpoch).Some?
    && slot % chain.slotsPerEpoch < |chain.stats(slot / chain.slotsPerEpoch).value.duties|
  }

  ghost function BasisOf(chain: Chain, slot: nat): Basis
    requires chain.slotsPerEpoch > 0 && Creatable(chain, slot)
  {
    var stats := chain.stats(slot / chain.slotsPerEpoch).value;
    Basis(stats.duties[slot % chain.slotsPerEpoch], stats.activeIndices, stats.effectiveBalances)
  }

  /** The slot starts without head and roots, on the duties that the chain service has for it. */
  ghost predicate StartsWith(states: States, bases: map<nat, Basis>, slot: nat, chain: Chain)
    requires chain.slotsPerEpoch > 0
  {
    && Creatable(chain, slot) && slot in states && states[slot].headRoot == 0
    && slot in bases && bases[slot] == BasisOf(chain, slot)
  }

  // ----- one vote -----

  /** The claimed committee exists and the attester has a seat in it. */
  predicate Seated(layout: Layout, event: SingleAttestation)
  {
    |layout.offsets| == |layout.sizes| && Accepted(layout, event.attester, event.committeeIndex)
  }

  /** The attestation is counted: its slot and root are tracked and the seat is accepted. */
  ghost predicate Counted(states: States, event: SingleAttestation)
  {
    TrackedAt(states, (event.slot, event.root)) && Seated(states[event.slot].layout, event)
  }

  ghost predicate NewlyCounted(states: States, states': States, event: SingleAttestation)
  {
    Counted(states', event) && states'[event.slot].layout.positions[event.attester] !in VotersAt(states, event.slot, event.root)
  }

  /** The arrival time recorded for the attester's position. */
  function ArrivalAt(s: SlotVotes, event: SingleAttestation): nat
  {
    if event.root in s.roots && event.attester in s.layout.positions
       && s.layout.positions[event.attester] < |s.roots[event.root].voteTimes|
    then s.roots[event.root].voteTimes[s.layout.positions[event.attester]]
    else 0
  }

  /** The vote is in the bitmap, at the attester's own position. */
  ghost predicate Merged(s: SlotVotes, s': SlotVotes, event: SingleAttestation, time: nat)
    requires event.attester in s.layout.positions
  {
    var pos := s.layout.positions[event.attester];
    && s'.layout == s.layout && s'.headRoot == s.headRoot && s'.roots.Keys == s.roots.Keys
    && (forall r :: r in s.roots && r != event.root ==> s'.roots[r] == s.roots[r])
    && Voters(s', event.root) == Voters(s, event.root) + {pos}
    && ArrivalAt(s', event) == if pos in Voters(s, event.root) then ArrivalAt(s, event) else time
  }

  lemma VoteWritten(threshold: nat, s: SlotVotes, event: SingleAttestation, time: nat)
    requires SlotOk(threshold, s) && event.root in s.roots && event.attester in s.layout.positions && time > 0
    requires s.layout.positions[event.attester] < s.layout.totalMembers
    requires s.layout.positions[event.attester] !in Voters(s, event.root)
    ensures var pos := s.layout.positions[event.attester];
      pos < |s.roots[event.root].voteTimes| && Merged(s, WithVote(s, event.root, pos, time), event, time)
  {
    var pos := s.layout.positions[event.attester];
    WithVoteIsOk(threshold, s, event.root, pos, time);
    InMembers(s.roots[event.root].voteBits, pos);
    assert Voted(s.layout, s.roots[event.root], pos, time).voteTimes[pos] == time;
  }

  lemma VoteReady(threshold: nat, s: SlotVotes, event: SingleAttestation, time: nat)
    requires SlotOk(threshold, s) && event.root in s.roots && event.attester in s.layout.positions && time > 0
    requires s.layout.positions[event.attester] !in Voters(s, event.root)
    ensures var pos := s.layout.positions[event.attester];
      && pos < |s.layout.weights| && pos < |s.roots[event.root].voteTimes|
      && var s' := WithVote(s, event.root, pos, time);
      && RootsOk(threshold, s') && HeadTracked(s') && (event.root != s'.headRoot ==> HeadSettled(threshold, s'))
      && FlagsKept(s, s') && Merged(s, s', event, time)
  {
    assert Sound(threshold, s.layout, s.roots[event.root]);
    WithVoteIsOk(threshold, s, event.root, s.layout.positions[event.attester], time);
    VoteWritten(threshold, s, event, time);
  }

  /** A vote that is there already changes nothing. */
  lemma AlreadyMerged(threshold: nat, s: SlotVotes, event: SingleAttestation, time: nat)
    requires SlotOk(threshold, s) && event.root in s.roots && event.attester in s.layout.positions
    ensures s.layout.positions[event.attester] in Voters(s, event.root) ==> Merged(s, s, event, time)
    ensures s.layout.positions[event.attester] in Voters(s, event.root) <==>
      IsBitSet(s.roots[event.root].voteBits, s.layout.positions[event.attester])
  {
    InMembers(s.roots[event.root].voteBits, s.layout.positions[event.attester]);
    if s.layout.positions[event.attester] in Voters(s, event.root) {
      assert Voters(s, event.root) + {s.layout.positions[event.attester]} == Voters(s, event.root);
    }
  }

  /** The threshold check does not touch votes. */
  lemma MergedThenChecked(threshold: nat, s: SlotVotes, s': SlotVotes, event: SingleAttestation, time: nat, primary: nat)
    requires event.attester in s.layout.positions && event.root in s.roots && Merged(s, s', event, time)
    ensures Merged(s, MaybeFired(threshold, s', event.root, primary), event, time)
  {
  }

  /** The seen attestation, in validators. */
  lemma MergedValidator(s: SlotVotes, s': SlotVotes, b: Basis, event: SingleAttestation, time: nat)
    requires LaidOut(s.layout, b) && event.attester in s.layout.positions && Merged(s, s', event, time)
    ensures ValidatorsOf(s'.layout, Voters(s', event.root)) == ValidatorsOf(s.layout, Voters(s, event.root)) + {event.attester}
  {
    OneMoreValidator(s.layout, b, Voters(s, event.root), event.attester);
  }

  /** What an attestation makes of its slot: the root is tracked if there is room, and then an accepted vote is merged. */
  ghost predicate IsVoteState(s: SlotVotes, s': SlotVotes, event: SingleAttestation, time: nat)
  {
    var tracked := WithRoot(s, event.root);
    if event.root in tracked.roots && Seated(s.layout, event) then Merged(tracked, s', event, time) else s' == tracked
  }

  /** A root is given a state, if there is room. */
  lemma RootTracked(threshold: nat, states: States, slot: nat, root: nat)
    requires StatesOk(threshold, states) && slot in states
    ensures var state, states' := WithRoot(states[slot], root), states[slot := WithRoot(states[slot], root)];
      && SlotOk(threshold, state) && state.layout == states[slot].layout && state.headRoot == states[slot].headRoot
      && FlagsKept(states[slot], state) && states[slot].roots.Keys <= state.roots.Keys
      && OnlyRootAt(states, states', slot, root) && VotersAt(states', slot, root) == VotersAt(states, slot, root)
  {
    assert SlotOk(threshold, states[slot]);
    WithRootIsOk(threshold, states[slot], root);
  }

  // ----- a new head -----

  /** The slot as it was before, or without head and roots. */
  function Earlier(states: States, states': States, slot: nat): SlotVotes
    requires slot in states'
  {
    if slot in states then states[slot] else SlotVotes(states'[slot].layout, map[], 0)
  }

  /** What a head event makes of a slot: nothing with the same head, else the head is tracked, for a least-voted root if need be. */
  ghost predicate IsHeadState(threshold: nat, s: SlotVotes, s': SlotVotes, block: nat)
  {
    if s.headRoot == block then s' == s
    else exists victim :: IsHeadFor(threshold, s, s', block, victim)
  }

  ghost predicate IsHeadFor(threshold: nat, s: SlotVotes, s': SlotVotes, block: nat, victim: nat)
  {
    CanGo(s, victim) && block in WithHead(s, block, victim).roots && s' == HeadChecked(threshold, WithHead(s, block, victim), block)
  }

  ghost predicate MarksKept(s: SlotVotes, s': SlotVotes)
  {
    forall r :: r in s.roots && r in s'.roots && s.roots[r].thresholdFired ==> s'.roots[r].thresholdFired
  }

  lemma HeadKeepsMarks(threshold: nat, s: SlotVotes, s': SlotVotes, block: nat)
    requires IsHeadState(threshold, s, s', block)
    ensures MarksKept(s, s')
  {
    if s.headRoot != block {
      var victim :| IsHeadFor(threshold, s, s', block, victim);
      WithHeadKeepsFlags(s, block, victim);
    }
  }

  predicate CanGo(s: SlotVotes, victim: nat)
  {
    s.roots == map[] || LeastVoted(s, victim)
  }

  /**
   Seen from outside: the head is tracked, the votes of the roots that stay are kept, a root goes only for want of room and
   only a least-voted one, and a head at or above the threshold is announced.
   */
  lemma HeadStateMeans(threshold: nat, s: SlotVotes, s': SlotVotes, block: nat)
    requires SlotOk(threshold, s) && IsHeadState(threshold, s, s', block)
    ensures SlotOk(threshold, s') && s'.headRoot == block && s'.layout == s.layout
    ensures block != 0 ==> block in s'.roots
    ensures forall r :: r in s'.roots ==> Voters(s', r) == Voters(s, r)
    ensures forall r :: r in s.roots && r !in s'.roots ==>
      LeastVoted(s, r) && |s.roots| == MAX_TRACKED_ROOTS && block !in s.roots
    ensures block in s'.roots && Crossed(threshold, s'.layout, s'.roots[block]) ==> s'.roots[block].thresholdFired
    ensures block in s'.roots && block != s.headRoot && Voters(s, block) != {} ==> s'.roots[block].dirty
  {
    if s.headRoot != block {
      var victim :| IsHeadFor(threshold, s, s', block, victim);
      WithHeadIsOk(threshold, s, block, victim);
      HeadCheckedIsOk(threshold, WithHead(s, block, victim), block);
      NewHeadIsDirty(threshold, WithHead(s, block, victim), block);
    }
  }

  /** A new head with votes is looked at by the next flush. */
  lemma NewHeadIsDirty(threshold: nat, s: SlotVotes, block: nat)
    requires RootsOk(threshold, s) && block in s.roots
    ensures Voters(s, block) != {} ==> HeadChecked(threshold, s, block).roots[block].dirty
  {
    assert Sound(threshold, s.layout, s.roots[block]);
  }

  /**
   The condition under which "once" holds: while members vote for one root each and the threshold is above a quarter, by as
   much as the weights differ, no new head evicts an announced root.
   */
  lemma AnnouncedStays(threshold: nat, s: SlotVotes, s': SlotVotes, block: nat, root: nat, low: nat, high: nat)
    requires SlotOk(threshold, s) && IsHeadState(threshold, s, s', block) && OneRootEach(s)
    requires WeightsBetween(s.layout.weights, low, high) && threshold * low > 25 * high
    requires root in s.roots && s.roots[root].thresholdFired
    ensures root in s'.roots && s'.roots[root].thresholdFired && OneRootEach(s')
  {
    HeadStateMeans(threshold, s, s', block);
    HeadKeepsMarks(threshold, s, s', block);
    if root !in s'.roots {
      assert Sound(threshold, s.layout, s.roots[root]);
      LeastVotedNotCrossed(threshold, s, root, low, high);
    }
    HeadKeepsOneEach(s, s');
  }

  lemma HeadKeepsOneEach(s: SlotVotes, s': SlotVotes)
    requires OneRootEach(s) && forall r :: r in s'.roots ==> Voters(s', r) == Voters(s, r)
    ensures OneRootEach(s')
  {
    forall r, r' | r in s'.roots && r' in s'.roots && r != r'
      ensures Voters(s', r) !! Voters(s', r')
    {
      assert Voters(s, r) !! Voters(s, r');
    }
  }

  lemma WithHeadKeepsFlags(s: SlotVotes, block: nat, victim: nat)
    ensures FlagsKept(s, WithHead(s, block, victim))
  {
  }

  /** The mark that the next flush looks at is set last. */
  lemma DirtiedLast(threshold: nat, states: States, slot: nat, checked: SlotVotes, block: nat, fired: seq<Firing>,
                    fired': seq<Firing>)
    requires slot in states && block in checked.roots
    requires Announces(threshold, states, states[slot := checked], fired, fired', (slot, block))
    ensures FlagsKept(checked, Dirtied(checked, block)) && checked.roots.Keys == Dirtied(checked, block).roots.Keys
    ensures Announces(threshold, states, states[slot := Dirtied(checked, block)], fired, fired', (slot, block))
    ensures Dropped(states, states[slot := checked]) == Dropped(states, states[slot := Dirtied(checked, block)])
  {
    var states', states'' := states[slot := checked], states[slot := Dirtied(checked, block)];
    AnnouncesKept(threshold, states, states', states'', fired, fired', (slot, block));
    SameDropped(states, states', states'');
  }

  /** A slot that is created for its head has no marks yet. */
  lemma HeadAfterCreation(threshold: nat, states: States, states': States, states'': States, slot: nat, block: nat,
                          fired: seq<Firing>, fired': seq<Firing>)
    requires OnlyAt(states, states', slot) && (states' == states || (slot !in states && states'[slot].roots == map[]))
    requires (states'' == states' && fired' == fired) || Announces(threshold, states', states'', fired, fired', (slot, block))
    ensures Announces(threshold, states, states'', fired, fired', (slot, block))
    ensures Dropped(states', states'') == Dropped(states, states'')
    ensures Dropped(states, states) == {}
  {
    assert fired + [] == fired;
    forall k: Key
      ensures HasFired(states', k) <==> HasFired(states, k)
    {
    }
  }

  /** The slots that the prune keeps are as the head event left them. */
  lemma PrunedAfter(threshold: nat, states: States, states': States, states'': States, slot: nat, block: nat,
                    fired: seq<Firing>, fired': seq<Firing>)
    requires forall s :: s in states'' ==> s in states' && states''[s] == states'[s]
    requires slot in states' ==> slot in states''
    requires forall s :: s != slot ==> (s in states' <==> s in states) && (s in states ==> states'[s] == states[s])
    requires slot in states && slot in states' ==> MarksKept(states[slot], states'[slot])
    requires slot !in states' ==> slot !in states
    requires Announces(threshold, states, states', fired, fired', (slot, block))
    ensures Announces(threshold, states, states'', fired, fired', (slot, block))
    ensures multiset(Dropped(states, states')) + multiset(Dropped(states', states'')) == multiset(Dropped(states, states''))
  {
    AnnouncesKept(threshold, states, states', states'', fired, fired', (slot, block));
    DroppedTwice(states, states', states'');
  }

  // ----- throttled updates -----

  predicate NeedsFlush(s: SlotVotes, root: nat)
    requires root in s.roots
  {
    s.roots[root].dirty && Pct(s.layout, s.roots[root].participatingETH) - s.roots[root].lastFiredPct >= 1.0
  }

  /** A root needs an update exactly when it is one point or more above what its last update told. */
  lemma NeedsFlushMeans(threshold: nat, s: SlotVotes, root: nat)
    requires SlotOk(threshold, s) && root in s.roots
    ensures NeedsFlush(s, root) <==> Pct(s.layout, s.roots[root].participatingETH) >= s.roots[root].lastFiredPct + 1.0
  {
    assert Sound(threshold, s.layout, s.roots[root]);
  }

  /** The last update of the slot's primary root is less than one point behind. */
  ghost predicate UpToDate(s: SlotVotes)
  {
    s.roots == map[] ||
    exists root :: IsPrimary(s, root) && Pct(s.layout, s.roots[root].participatingETH) < s.roots[root].lastFiredPct + 1.0
  }

  /** The update is that of the slot's primary root, which needed it, and the slot is marked accordingly. */
  ghost predicate Flushes(threshold: nat, states: States, states': States, f: Firing)
  {
    var slot, root := f.update.slot, f.update.root;
    && slot in states && slot in states' && IsPrimary(states[slot], root) && NeedsFlush(states[slot], root)
    && f == Firing(UpdateOf(threshold, slot, root, states[slot]), false)
    && states'[slot] == Fired(states[slot], root, false)
  }

  ghost predicate NotDue(s: SlotVotes)
  {
    s.roots == map[] || exists root :: IsPrimary(s, root) && !NeedsFlush(s, root)
  }

  ghost predicate SentFor(more: seq<Firing>, s: nat)
  {
    exists i :: 0 <= i < |more| && more[i].update.slot == s
  }

  /** Of the slots outside rest, exactly those with an update among the new ones have changed, and the others needed none. */
  ghost predicate FlushedAs(threshold: nat, states: States, states': States, more: seq<Firing>, rest: set<nat>)
  {
    && states'.Keys == states.Keys
    && (forall i :: 0 <= i < |more| ==> Flushes(threshold, states, states', more[i]) && more[i].update.slot !in rest)
    && (forall i, j :: 0 <= i < j < |more| ==> more[i].update.slot != more[j].update.slot)
    && forall s {:trigger SentFor(more, s)} :: s in states && !SentFor(more, s) ==>
      states'[s] == states[s] && (s in rest || NotDue(states[s]))
  }

  lemma FlushStep(threshold: nat, states: States, states': States, more: seq<Firing>, rest: set<nat>, slot: nat, root: nat)
    requires FlushedAs(threshold, states, states', more, rest) && slot in rest && slot in states
    requires IsPrimary(states[slot], root) && NeedsFlush(states[slot], root)
    ensures FlushedAs(threshold, states, states'[slot := Fired(states[slot], root, false)],
                      more + [Firing(UpdateOf(threshold, slot, root, states[slot]), false)], rest - {slot})
  {
    var f := Firing(UpdateOf(threshold, slot, root, states[slot]), false);
    var states'', more' := states'[slot := Fired(states[slot], root, false)], more + [f];
    assert more'[|more|].update.slot == slot;
    forall s | s in states && !SentFor(more', s)
      ensures states''[s] == states[s] && (s in rest - {slot} || NotDue(states[s]))
    {
      assert forall i :: 0 <= i < |more| ==> more'[i] == more[i];
      assert !SentFor(more, s);
    }
  }

  lemma FlushedIsUpToDate(threshold: nat, states: States, states': States, more: seq<Firing>, s: nat)
    requires StatesOk(threshold, states) && FlushedAs(threshold, states, states', more, {}) && s in states'
    ensures UpToDate(states'[s])
  {
    assert SlotOk(threshold, states[s]);
    if SentFor(more, s) {
      var i :| 0 <= i < |more| && more[i].update.slot == s;
      assert Flushes(threshold, states, states', more[i]);
      assert IsPrimary(states'[s], more[i].update.root);
    } else if states[s].roots != map[] {
      var root :| IsPrimary(states[s], root) && !NeedsFlush(states[s], root);
      NeedsFlushMeans(threshold, states[s], root);
    }
  }

  lemma NoFlushStep(threshold: nat, states: States, states': States, more: seq<Firing>, rest: set<nat>, slot: nat)
    requires FlushedAs(threshold, states, states', more, rest) && slot in rest && (slot in states ==> NotDue(states[slot]))
    ensures FlushedAs(threshold, states, states', more, rest - {slot})
  {
  }

  lemma NotSentYet(threshold: nat, states: States, states': States, more: seq<Firing>, rest: set<nat>, slot: nat)
    requires FlushedAs(threshold, states, states', more, rest) && slot in rest && slot in states
    ensures states'[slot] == states[slot]
  {
    assert !SentFor(more, slot);
  }

  // ----- coverage, in validators -----

  /** The validators that blocks say attested to the root. */
  ghost function OnChainFor(states: States, slot: nat, root: nat): set<nat>
  {
    if slot in states then ValidatorsOf(states[slot].layout, OnChain(states[slot], root)) else {}
  }

  lemma OnChainValidators(states: States, states': States, bases: map<nat, Basis>, atts: seq<Attestation>, k: Key, v: nat)
    requires LayoutsAre(states, bases) && SameVotes(states, states') && k.0 in states
    requires OnChainAt(states', k) == OnChainAt(states, k) + NamedSet(states, atts, k)
    ensures v in OnChainFor(states', k.0, k.1) <==>
      v in OnChainFor(states, k.0, k.1) || Attested(BasisAt(bases, k.0), atts, k.0, k.1, v)
  {
    assert LaidOutAt(states, bases, k.0) && OnlyBlocksAt(states, states', k.0);
    NamedAreAttested(states, bases, atts, k, v);
  }

  class Tracker {
    const threshold: nat // in percent, 0 = disabled
    var slotStates: States
    var coverageSamples: seq<Sample>
    var coverageLow: bool
    var fired: seq<Firing> // the updates sent, in order
    ghost var bases: map<nat, Basis> // the duties that each slot's layout was built from
    ghost var lost: multiset<Key> // the announced roots that were dropped

    ghost predicate Valid()
      reads this
    {
      && StatesOk(threshold, slotStates) && LayoutsAre(slotStates, bases) && OnceEach(fired, lost, slotStates)
      && |coverageSamples| <= COVERAGE_WINDOW
      && forall i :: 0 <= i < |coverageSamples| ==> coverageSamples[i].seen <= coverageSamples[i].total
    }

    constructor (threshold: nat)
      ensures Valid() && this.threshold == threshold && slotStates == map[] && fired == [] && coverageSamples == []
      ensures lost == multiset{}
    {
      this.threshold := threshold;
      slotStates, coverageSamples, coverageLow, fired, bases, lost := map[], [], false, [], map[], multiset{};
    }

    /** getOrCreateSlotState: a slot is created exactly within the window and with duties. */
    method GetOrCreateSlotState(slot: nat, chain: Chain) returns (ok: bool)
      requires Valid() && ChainOk(chain)
      modifies this`slotStates, this`bases
      ensures Valid() && ok == (slot in slotStates) && (ok <==> slot in old(slotStates) || Creatable(chain, slot))
      ensures slot !in old(slotStates) ==>
        (ok <==>
          && chain.currentSlot - SLOT_RETENTION <= slot <= chain.currentSlot + 1
          && var stats := chain.stats(slot / chain.slotsPerEpoch);
          stats.Some? && slot % chain.slotsPerEpoch < |stats.value.duties|)
      ensures slot !in old(slotStates) && ok ==>
        var stats := chain.stats(slot / chain.slotsPerEpoch).value;
        IsLayout(slotStates[slot].layout, stats.duties[slot % chain.slotsPerEpoch], stats.activeIndices, stats.effectiveBalances)
      ensures ok ==> LaidOut(slotStates[slot].layout, BasisAt(bases, slot))
      ensures slot in old(slotStates) || !ok ==> slotStates == old(slotStates) && bases == old(bases)
      ensures slot !in old(slotStates) && ok ==>
        && StartsWith(slotStates, bases, slot, chain) && slotStates[slot] == Earlier(old(slotStates), slotStates, slot)
        && slotStates == old(slotStates)[slot := slotStates[slot]] && bases == old(bases)[slot := bases[slot]]
    {
      if slot in slotStates {
        assert LaidOutAt(slotStates, bases, slot);
        return true;
      }
      if slot + SLOT_RETENTION < chain.currentSlot || slot > chain.currentSlot + 1 {
        return false;
      }
      var stats := chain.stats(slot / chain.slotsPerEpoch);
      var slotIndex := slot % chain.slotsPerEpoch;
      var layout := BuildCommitteeLayout(stats, slotIndex);
      if layout.None? {
        return false;
      }
      Create(slot, layout.value, BasisOf(chain, slot));
      return true;
    }

    method Create(slot: nat, layout: Layout, ghost b: Basis)
      requires Valid() && slot !in slotStates && LaidOut(layout, b)
      modifies this`slotStates, this`bases
      ensures Valid() && bases == old(bases)[slot := b]
      ensures slotStates == old(slotStates)[slot := SlotVotes(layout, map[], 0)]
    {
      var state := SlotVotes(layout, map[], 0);
      LayoutIsOk(layout, b);
      assert SlotOk(threshold, state);
      NewLayout(slotStates, bases, slot, state, b);
      SameFlagsOnce(fired, lost, slotStates, slotStates[slot := state]);
      StatesStored(threshold, slotStates, slot, state);
      slotStates := slotStates[slot := state];
      bases := bases[slot := b];
    }

    method Store(slot: nat, state: SlotVotes)
      requires Valid() && slot in slotStates && SlotOk(threshold, state) && state.layout == slotStates[slot].layout
      requires FlagsKept(slotStates[slot], state) && slotStates[slot].roots.Keys <= state.roots.Keys
      modifies this`slotStates
      ensures Valid() && slotStates == old(slotStates)[slot := state]
      ensures SameFlags(old(slotStates), slotStates)
    {
      StoredLayout(slotStates, bases, slot, state);
      StoredOnce(fired, lost, slotStates, slot, state);
      StatesStored(threshold, slotStates, slot, state);
      slotStates := slotStates[slot := state];
    }

    /** primary(), for a slot that tracks some root. */
    method Primary(state: SlotVotes) returns (root: nat)
      requires state.roots != map[]
      ensures IsPrimary(state, root)
    {
      if state.headRoot in state.roots {
        return state.headRoot;
      }
      var rest := state.roots.Keys;
      root :| root in rest;
      rest := rest - {root};
      while rest != {}
        invariant rest <= state.roots.Keys && root in state.roots
        invariant forall r :: r in state.roots && r !in rest ==> state.roots[r].voteCount <= state.roots[root].voteCount
        decreases |rest|
      {
        var r :| r in rest;
        rest := rest - {r};
        if state.roots[r].voteCount > state.roots[root].voteCount {
          root := r;
        }
      }
    }

    method LeastVotedRoot(state: SlotVotes) returns (victim: nat)
      ensures CanGo(state, victim)
    {
      victim := 0;
      var rest := state.roots.Keys;
      if rest != {} {
        victim :| victim in rest;
        rest := rest - {victim};
      }
      while rest != {}
        invariant rest <= state.roots.Keys && (state.roots == map[] || victim in state.roots)
        invariant forall r :: r in state.roots && r !in rest ==> state.roots[victim].voteCount <= state.roots[r].voteCount
        decreases |rest|
      {
        var r :| r in rest;
        rest := rest - {r};
        if state.roots[r].voteCount < state.roots[victim].voteCount {
          victim := r;
        }
      }
    }

    /**
     The slot's new state, in which one root may be missing, is stored after the check for one of its roots: the update is
     sent exactly when the root becomes marked, which is when it is the primary one, unmarked and at the threshold.
     */
    method MaybeFireThreshold(slot: nat, state: SlotVotes, root: nat) returns (ghost primary: nat)
      requires Valid() && slot in slotStates && state.layout == slotStates[slot].layout && FlagsKept(slotStates[slot], state)
      requires RootsOk(threshold, state) && HeadTracked(state) && root in state.roots
      requires root != state.headRoot ==> HeadSettled(threshold, state)
      modifies this`slotStates, this`fired, this`lost
      ensures Valid() && IsPrimary(state, primary)
      ensures slotStates == old(slotStates)[slot := MaybeFired(threshold, state, root, primary)]
      ensures Announces(threshold, old(slotStates), slotStates, old(fired), fired, (slot, root))
      ensures lost == old(lost) + multiset(Dropped(old(slotStates), slotStates))
    {
      var first := Primary(state);
      primary := first;
      MaybeFiredIsOk(threshold, state, root, first);
      SettledOnce(threshold, fired, lost, slotStates, slot, state, root, first);
      var settled := MaybeFired(threshold, state, root, first);
      StoredLayout(slotStates, bases, slot, settled);
      StatesStored(threshold, slotStates, slot, settled);
      lost := lost + multiset(Dropped(slotStates, slotStates[slot := settled]));
      slotStates := slotStates[slot := settled];
      if MustFire(threshold, state, root, first) {
        fired := fired + [Firing(UpdateOf(threshold, slot, root, state), true)];
      } else {
        assert fired + [] == fired;
      }
    }

    // ----- handleSingleAttestation -----

    method HandleSingleAttestation(event: SingleAttestation, chain: Chain)
      requires Valid() && ChainOk(chain)
      modifies this`slotStates, this`bases, this`fired, this`lost
      ensures Valid() && OnlyRootAt(old(slotStates), slotStates, event.slot, event.root)
      ensures event.slot in old(slotStates) ==>
        KeepsHead(old(slotStates)[event.slot], slotStates, event.slot) && bases == old(bases)
      ensures event.slot in slotStates && event.slot !in old(slotStates) ==> StartsWith(slotStates, bases, event.slot, chain)
      ensures event.slot in slotStates <==> event.slot in old(slotStates) || Creatable(chain, event.slot)
      ensures event.slot in slotStates ==>
        IsVoteState(Earlier(old(slotStates), slotStates, event.slot), slotStates[event.slot], event,
                    VoteTimeOffset(chain.slotToTime(event.slot), event.receivedAt))
      ensures VotedFor(slotStates, event.slot, event.root) ==
        old(VotedFor(slotStates, event.slot, event.root)) + if Counted(slotStates, event) then {event.attester} else {}
      ensures TrackedAt(slotStates, (event.slot, event.root)) && Distinct(slotStates[event.slot].layout.validators) ==>
        (Counted(slotStates, event) <==> SitsIn(BasisAt(bases, event.slot), event.attester, event.committeeIndex))
      ensures NewlyCounted(old(slotStates), slotStates, event) ==>
        ArrivalAt(slotStates[event.slot], event) == VoteTimeOffset(chain.slotToTime(event.slot), event.receivedAt)
      ensures Announces(threshold, old(slotStates), slotStates, old(fired), fired, (event.slot, event.root))
      ensures lost == old(lost)
    {
      var ok := TrackRoot(event.slot, event.root, chain);
      assert fired + [] == fired;
      if ok {
        ghost var tracked := slotStates;
        CountVote(event, VoteTimeOffset(chain.slotToTime(event.slot), event.receivedAt));
        OnlyRootTwice(old(slotStates), tracked, slotStates, event.slot, event.root);
      }
    }

    /** With the states tracked: the seat is checked and the vote counted. */
    method CountVote(event: SingleAttestation, time: nat)
      requires Valid() && TrackedAt(slotStates, (event.slot, event.root)) && time > 0
      modifies this`slotStates, this`fired, this`lost
      ensures Valid() && OnlyRootAt(old(slotStates), slotStates, event.slot, event.root)
      ensures TrackedAt(slotStates, (event.slot, event.root)) && KeepsHead(old(slotStates)[event.slot], slotStates, event.slot)
      ensures VotedFor(slotStates, event.slot, event.root) ==
        old(VotedFor(slotStates, event.slot, event.root)) + if Counted(slotStates, event) then {event.attester} else {}
      ensures Distinct(slotStates[event.slot].layout.validators) ==>
        (Counted(slotStates, event) <==> SitsIn(BasisAt(bases, event.slot), event.attester, event.committeeIndex))
      ensures NewlyCounted(old(slotStates), slotStates, event) ==> ArrivalAt(slotStates[event.slot], event) == time
      ensures if Seated(old(slotStates)[event.slot].layout, event)
              then Merged(old(slotStates)[event.slot], slotStates[event.slot], event, time)
              else slotStates == old(slotStates)
      ensures Announces(threshold, old(slotStates), slotStates, old(fired), fired, (event.slot, event.root))
      ensures lost == old(lost)
    {
      SeatChecked(event);
      ghost var before := slotStates[event.slot];
      if Accepted(slotStates[event.slot].layout, event.attester, event.committeeIndex) {
        MergeVote(event, time);
        MergedValidator(before, slotStates[event.slot], BasisAt(bases, event.slot), event, time);
      } else {
        assert fired + [] == fired;
      }
    }

    /** What the seat check decides, in validators. */
    lemma SeatChecked(event: SingleAttestation)
      requires Valid() && event.slot in slotStates
      ensures LaidOutAt(slotStates, bases, event.slot) && LayoutShape(slotStates[event.slot].layout)
      ensures Distinct(slotStates[event.slot].layout.validators) ==>
        (Accepted(slotStates[event.slot].layout, event.attester, event.committeeIndex) <==>
         SitsIn(BasisAt(bases, event.slot), event.attester, event.committeeIndex))
    {
      var layout := slotStates[event.slot].layout;
      assert LaidOutAt(slotStates, bases, event.slot);
      LayoutIsOk(layout, bases[event.slot]);
      if Distinct(layout.validators) {
        AcceptedSeat(layout, bases[event.slot], event.attester, event.committeeIndex);
      }
    }

    /** The states of the slot and of the root, created when there is room for them. */
    method TrackRoot(slot: nat, root: nat, chain: Chain) returns (ok: bool)
      requires Valid() && ChainOk(chain)
      modifies this`slotStates, this`bases
      ensures Valid() && OnlyRootAt(old(slotStates), slotStates, slot, root) && SameFlags(old(slotStates), slotStates)
      ensures slot in old(slotStates) ==> KeepsHead(old(slotStates)[slot], slotStates, slot) && bases == old(bases)
      ensures slot in slotStates && slot !in old(slotStates) ==> StartsWith(slotStates, bases, slot, chain)
      ensures ok == TrackedAt(slotStates, (slot, root)) && (slot in slotStates <==> slot in old(slotStates) || Creatable(chain, slot))
      ensures slot in slotStates ==> slotStates[slot] == WithRoot(Earlier(old(slotStates), slotStates, slot), root)
      ensures VotersAt(slotStates, slot, root) == VotersAt(old(slotStates), slot, root)
    {
      ok := GetOrCreateSlotState(slot, chain);
      if !ok {
        return;
      }
      RootTracked(threshold, slotStates, slot, root);
      Store(slot, WithRoot(slotStates[slot], root));
      ok := root in slotStates[slot].roots;
    }

    /** The last part of handleSingleAttestation: the vote is counted unless its bit is already set. */
    method MergeVote(event: SingleAttestation, time: nat)
      requires Valid() && Counted(slotStates, event) && time > 0
      modifies this`slotStates, this`fired, this`lost
      ensures Valid() && event.slot in slotStates && slotStates == old(slotStates)[event.slot := slotStates[event.slot]]
      ensures Merged(old(slotStates)[event.slot], slotStates[event.slot], event, time)
      ensures Announces(threshold, old(slotStates), slotStates, old(fired), fired, (event.slot, event.root))
      ensures lost == old(lost)
    {
      var state := slotStates[event.slot];
      var pos := state.layout.positions[event.attester];
      assert SlotOk(threshold, state);
      AlreadyMerged(threshold, state, event, time);
      if IsBitSet(state.roots[event.root].voteBits, pos) {
        assert fired + [] == fired;
        return;
      }
      VoteReady(threshold, state, event, time);
      var voted := WithVote(state, event.root, pos, time);
      ghost var primary := MaybeFireThreshold(event.slot, voted, event.root);
      MergedThenChecked(threshold, state, voted, event, time, primary);
      NothingDropped(old(slotStates), event.slot, slotStates[event.slot]);
      assert lost == old(lost) + multiset({});
    }

    // ----- handleHeadEvent -----

    method HandleHeadEvent(slot: nat, block: nat, chain: Chain)
      requires Valid() && ChainOk(chain)
      modifies this`slotStates, this`bases, this`fired, this`lost
      ensures Valid()
      ensures forall s :: s != slot ==> (s in slotStates <==> s in old(slotStates) && slot <= s + SLOT_RETENTION)
      ensures forall s :: s != slot && s in slotStates ==> slotStates[s] == old(slotStates)[s]
      ensures slot in slotStates <==> slot in old(slotStates) || Creatable(chain, slot)
      ensures slot in slotStates ==> IsHeadState(threshold, Earlier(old(slotStates), slotStates, slot), slotStates[slot], block)
      ensures slot in slotStates && slot !in old(slotStates) ==>
        Creatable(chain, slot) && BasisAt(bases, slot) == BasisOf(chain, slot)
      ensures Announces(threshold, old(slotStates), slotStates, old(fired), fired, (slot, block))
      ensures lost == old(lost) + multiset(Dropped(old(slotStates), slotStates))
    {
      TrackHead(slot, block, chain);
      if slot in slotStates {
        HeadKeepsMarks(threshold, Earlier(old(slotStates), slotStates, slot), slotStates[slot], block);
      }
      ghost var states := slotStates;
      PruneSlots(slot);
      PrunedAfter(threshold, old(slotStates), states, slotStates, slot, block, old(fired), fired);
    }

    method TrackHead(slot: nat, block: nat, chain: Chain)
      requires Valid() && ChainOk(chain)
      modifies this`slotStates, this`bases, this`fired, this`lost
      ensures Valid() && OnlyAt(old(slotStates), slotStates, slot)
      ensures slot in slotStates <==> slot in old(slotStates) || Creatable(chain, slot)
      ensures slot in slotStates ==> IsHeadState(threshold, Earlier(old(slotStates), slotStates, slot), slotStates[slot], block)
      ensures slot in slotStates && slot !in old(slotStates) ==>
        Creatable(chain, slot) && BasisAt(bases, slot) == BasisOf(chain, slot)
      ensures Announces(threshold, old(slotStates), slotStates, old(fired), fired, (slot, block))
      ensures lost == old(lost) + multiset(Dropped(old(slotStates), slotStates))
    {
      var ok := GetOrCreateSlotState(slot, chain);
      ghost var states := slotStates;
      if ok && slotStates[slot].headRoot != block {
        NameHead(slot, block);
      }
      OnlyAtTwice(old(slotStates), states, slotStates, slot);
      HeadAfterCreation(threshold, old(slotStates), states, slotStates, slot, block, old(fired), fired);
    }

    /** The head root must be tracked: with four other roots, the least voted one makes room. */
    method NameHead(slot: nat, block: nat)
      requires Valid() && slot in slotStates && slotStates[slot].headRoot != block
      modifies this`slotStates, this`fired, this`lost
      ensures Valid() && slot in slotStates && slotStates == old(slotStates)[slot := slotStates[slot]]
      ensures IsHeadState(threshold, old(slotStates)[slot], slotStates[slot], block)
      ensures Announces(threshold, old(slotStates), slotStates, old(fired), fired, (slot, block))
      ensures lost == old(lost) + multiset(Dropped(old(slotStates), slotStates))
    {
      var state := slotStates[slot];
      assert SlotOk(threshold, state);
      var victim := LeastVotedRoot(state);
      WithHeadIsOk(threshold, state, block, victim);
      WithHeadKeepsFlags(state, block, victim);
      ghost var primary := MaybeFireThreshold(slot, WithHead(state, block, victim), block);
      HeadCheckedIsOk(threshold, WithHead(state, block, victim), block);
      DirtyHead(slot, block, old(slotStates), old(fired));
      assert IsHeadFor(threshold, state, slotStates[slot], block, victim);
    }

    method DirtyHead(slot: nat, block: nat, ghost states: States, ghost before: seq<Firing>)
      requires Valid() && slot in states && slot in slotStates && block in slotStates[slot].roots
      requires slotStates == states[slot := slotStates[slot]]
      requires Announces(threshold, states, slotStates, before, fired, (slot, block))
      modifies this`slotStates
      ensures Valid() && Announces(threshold, states, slotStates, before, fired, (slot, block))
      ensures Dropped(states, slotStates) == Dropped(states, old(slotStates))
      ensures var checked := old(slotStates)[slot];
        slotStates == states[slot := if checked.roots[block].voteCount > 0 then Dirtied(checked, block) else checked]
    {
      var checked := slotStates[slot];
      if checked.roots[block].voteCount > 0 {
        assert SlotOk(threshold, checked);
        DirtiedIsOk(threshold, checked, block);
        DirtiedLast(threshold, states, slot, checked, block, before, fired);
        Store(slot, Dirtied(checked, block));
      }
    }

    method PruneSlots(headSlot: nat)
      requires Valid()
      modifies this`slotStates, this`lost
      ensures Valid()
      ensures forall s :: s in slotStates <==> s in old(slotStates) && headSlot <= s + SLOT_RETENTION
      ensures forall s :: s in slotStates ==> slotStates[s] == old(slotStates)[s]
      ensures lost == old(lost) + multiset(Dropped(old(slotStates), slotStates))
    {
      ghost var states := slotStates;
      DeleteOldSlots(headSlot);
      FewerStates(threshold, states, slotStates);
      FewerLayouts(states, bases, slotStates);
      DroppedOnce(fired, lost, states, slotStates);
      lost := lost + multiset(Dropped(states, slotStates));
    }

    method DeleteOldSlots(headSlot: nat)
      modifies this`slotStates
      ensures forall s :: s in slotStates <==> s in old(slotStates) && headSlot <= s + SLOT_RETENTION
      ensures forall s :: s in slotStates ==> slotStates[s] == old(slotStates)[s]
    {
      ghost var states := slotStates;
      var rest := slotStates.Keys;
      while rest != {}
        invariant rest <= slotStates.Keys <= states.Keys
        invariant forall s :: s in slotStates ==> slotStates[s] == states[s]
        invariant forall s :: s in states && s !in rest ==> (s in slotStates <==> headSlot <= s + SLOT_RETENTION)
        decreases |rest|
      {
        var slot :| slot in rest;
        rest := rest - {slot};
        if headSlot > SLOT_RETENTION && slot < headSlot - SLOT_RETENTION {
          slotStates := slotStates - {slot};
        }
      }
    }

    // ----- flushDirty -----

    /** Every slot's primary root is announced again once it is at least one point above the last update. */
    method FlushDirty() returns (ghost more: seq<Firing>)
      requires Valid()
      modifies this`slotStates, this`fired
      ensures Valid() && fired == old(fired) + more
      ensures FlushedAs(threshold, old(slotStates), slotStates, more, {})
      ensures forall s :: s in slotStates ==> UpToDate(slotStates[s])
    {
      ghost var states, before := slotStates, fired;
      var rest := slotStates.Keys;
      more := [];
      while rest != {}
        invariant Valid() && rest <= states.Keys && fired == before + more
        invariant FlushedAs(threshold, states, slotStates, more, rest)
        decreases |rest|
      {
        var slot :| slot in rest;
        NotSentYet(threshold, states, slotStates, more, rest, slot);
        ghost var states' := slotStates;
        var sent, root := FlushSlot(slot);
        if sent {
          FlushStep(threshold, states, states', more, rest, slot, root);
          more := more + [Firing(UpdateOf(threshold, slot, root, states[slot]), false)];
        } else {
          NoFlushStep(threshold, states, slotStates, more, rest, slot);
        }
        rest := rest - {slot};
      }
      forall s | s in slotStates
        ensures UpToDate(slotStates[s])
      {
        FlushedIsUpToDate(threshold, states, slotStates, more, s);
      }
    }

    method FlushSlot(slot: nat) returns (sent: bool, root: nat)
      requires Valid() && slot in slotStates
      modifies this`slotStates, this`fired
      ensures Valid()
      ensures sent ==> IsPrimary(old(slotStates)[slot], root) && NeedsFlush(old(slotStates)[slot], root)
      ensures sent ==> slotStates == old(slotStates[slot := Fired(slotStates[slot], root, false)])
      ensures sent ==> fired == old(fired + [Firing(UpdateOf(threshold, slot, root, slotStates[slot]), false)])
      ensures !sent ==> slotStates == old(slotStates) && fired == old(fired) && NotDue(slotStates[slot])
    {
      var state := slotStates[slot];
      assert SlotOk(threshold, state);
      if state.roots == map[] {
        return false, 0;
      }
      root := Primary(state);
      if !NeedsFlush(state, root) {
        return false, root;
      }
      FiredIsOk(threshold, state, root, false);
      StoredOnce(fired, lost, slotStates, slot, Fired(state, root, false));
      FlushedOnce(fired, lost, slotStates, slotStates[slot := Fired(state, root, false)], UpdateOf(threshold, slot, root, state));
      StoredLayout(slotStates, bases, slot, Fired(state, root, false));
      StatesStored(threshold, slotStates, slot, Fired(state, root, false));
      fired := fired + [Firing(UpdateOf(threshold, slot, root, state), false)];
      slotStates := slotStates[slot := Fired(state, root, false)];
      return true, root;
    }

    // ----- recordBlockAttestations -----

    /** The bitmap per tracked slot and root of the attesters that a block's attestations name. */
    method CollectBlockBits(atts: seq<Attestation>) returns (blockBits: Bits)
      requires Valid()
      ensures BitsFit(slotStates, blockBits) && AreBits(slotStates, atts, blockBits)
    {
      blockBits := map[];
      for i := 0 to |atts|
        invariant BitsFit(slotStates, blockBits) && AreBits(slotStates, atts[..i], blockBits)
      {
        assert atts[..i + 1] == atts[..i] + [atts[i]];
        if atts[i].slot in slotStates {
          blockBits := AddAttestation(blockBits, atts[..i], atts[i]);
        } else {
          UntrackedNamesNobody(slotStates, atts[..i], atts[i], blockBits);
        }
      }
      assert atts[..|atts|] == atts;
    }

    method AddAttestation(blockBits0: Bits, ghost before: seq<Attestation>, att: Attestation) returns (blockBits: Bits)
      requires Valid() && att.slot in slotStates
      requires BitsFit(slotStates, blockBits0) && AreBits(slotStates, before, blockBits0)
      ensures BitsFit(slotStates, blockBits) && AreBits(slotStates, before + [att], blockBits)
    {
      var layout, key := slotStates[att.slot].layout, (att.slot, att.root);
      assert SlotOk(threshold, slotStates[att.slot]);
      var bitmap := if key in blockBits0 then blockBits0[key] else Zeros((layout.totalMembers + 7) / 8, 0);
      NoMembers(bitmap);
      var marked := MarkAttesters(layout, att, bitmap);
      blockBits := blockBits0[key := marked];
      MarkedBitsFit(slotStates, key, att, blockBits0, bitmap, marked);
      MarkedAreBits(slotStates, before, att, blockBits0, marked);
    }

    /** The second half of recordBlockAttestations, for one slot and root. */
    method RecordBits(key: Key, bitmap: seq<bv8>) returns (changed: bool)
      requires Valid() && key.0 in slotStates && BitmapFits(slotStates[key.0].layout, bitmap)
      requires RecordFits(slotStates[key.0], key.1, bitmap)
      modifies this`slotStates, this`coverageSamples
      ensures Valid()
      ensures slotStates == old(slotStates)[key.0 := Recorded(old(slotStates)[key.0], key.1, bitmap)]
      ensures coverageSamples == AfterSample(old(coverageSamples), Members(bitmap), Voters(old(slotStates)[key.0], key.1))
      ensures changed <==> Members(bitmap) != {}
    {
      var total := PopCount(bitmap);
      var before := slotStates[key.0];
      NoMembers(bitmap);
      if total == 0 {
        assert Members(bitmap) == {};
        assert slotStates == slotStates[key.0 := before];
        return false;
      }
      assert SlotOk(threshold, before);
      RecordReady(threshold, before, key.1, bitmap);
      var state := WithRoot(before, key.1);
      var seen := 0;
      if key.1 in state.roots {
        seen := PopCountAnd(bitmap, state.roots[key.1].voteBits);
        state := SeenInBlock(state, key.1, bitmap);
      }
      Store(key.0, state);
      AddSample(seen, total, Members(bitmap), Voters(before, key.1));
      return true;
    }

    method AddSample(seen: nat, total: nat, ghost attesters: set<nat>, ghost voters: set<nat>)
      requires Valid() && total == |attesters| && seen == |attesters * voters| && attesters != {}
      modifies this`coverageSamples
      ensures Valid() && coverageSamples == AfterSample(old(coverageSamples), attesters, voters)
    {
      SubsetSize(attesters * voters, attesters);
      coverageSamples := coverageSamples + [Sample(seen, total)];
      if |coverageSamples| > COVERAGE_WINDOW {
        coverageSamples := coverageSamples[|coverageSamples| - COVERAGE_WINDOW..];
      }
    }

    /**
     Votes stay as they are; every tracked root also learns exactly the members that the block says attested to it, and
     the window gains one sample per slot and root of which it names members.
     */
    method RecordBlockAttestations(atts: seq<Attestation>) returns (changed: bool)
      requires Valid()
      modifies this`slotStates, this`coverageSamples, this`coverageLow
      ensures Valid() && SameVotes(old(slotStates), slotStates)
      ensures forall k, v {:trigger v in OnChainFor(slotStates, k.0, k.1)} :: TrackedAt(slotStates, k) ==>
        (v in OnChainFor(slotStates, k.0, k.1) <==>
         v in OnChainFor(old(slotStates), k.0, k.1) || Attested(BasisAt(bases, k.0), atts, k.0, k.1, v))
      ensures Sampled(old(slotStates), atts, old(coverageSamples), coverageSamples)
      ensures changed <==> NamesAnyone(old(slotStates), atts)
      ensures !changed ==> slotStates == old(slotStates) && coverageSamples == old(coverageSamples)
      ensures coverageLow == if changed then NextLow(old(coverageLow), coverageSamples) else old(coverageLow)
    {
      changed := RecordAttesters(atts);
      forall k, v | TrackedAt(slotStates, k)
        ensures v in OnChainFor(slotStates, k.0, k.1) <==>
          v in OnChainFor(old(slotStates), k.0, k.1) || Attested(BasisAt(bases, k.0), atts, k.0, k.1, v)
      {
        OnChainValidators(old(slotStates), slotStates, bases, atts, k, v);
      }
      if changed {
        UpdateCoverage();
      }
    }

    method UpdateCoverage()
      modifies this`coverageLow
      ensures coverageLow == NextLow(old(coverageLow), coverageSamples)
    {
      var seen, total := BuildCoverage();
      var pct := SeenPct(seen, total);
      if !coverageLow && |coverageSamples| >= COVERAGE_MIN_SLOTS && total >= COVERAGE_MIN_ATTESTERS && pct < 80.0 {
        coverageLow := true;
      } else if coverageLow && pct >= 90.0 {
        coverageLow := false;
      }
    }

    method RecordAttesters(atts: seq<Attestation>) returns (changed: bool)
      requires Valid()
      modifies this`slotStates, this`coverageSamples
      ensures Valid() && SameVotes(old(slotStates), slotStates)
      ensures forall k {:trigger TrackedAt(slotStates, k)} :: TrackedAt(slotStates, k) ==>
        OnChainAt(slotStates, k) == OnChainAt(old(slotStates), k) + NamedSet(old(slotStates), atts, k)
      ensures Sampled(old(slotStates), atts, old(coverageSamples), coverageSamples)
      ensures changed <==> NamesAnyone(old(slotStates), atts)
      ensures !changed ==> slotStates == old(slotStates) && coverageSamples == old(coverageSamples)
    {
      var blockBits := CollectBlockBits(atts);
      ghost var states := slotStates;
      ghost var keys;
      changed, keys := RecordAllBits(blockBits, atts);
      AnyBitsIffNamed(states, atts, blockBits);
      ListedAreNamed(states, atts, blockBits, keys);
      forall k | TrackedAt(slotStates, k)
        ensures OnChainAt(slotStates, k) == OnChainAt(states, k) + NamedSet(states, atts, k)
      {
        BitsAreNamed(states, atts, blockBits, k);
      }
    }

    method RecordAllBits(blockBits: Bits, ghost atts: seq<Attestation>) returns (changed: bool, ghost keys: seq<Key>)
      requires Valid()
      requires BitsFit(slotStates, blockBits) && AreBits(slotStates, atts, blockBits)
      modifies this`slotStates, this`coverageSamples
      ensures Valid() && SameVotes(old(slotStates), slotStates)
      ensures ChainProgress(old(slotStates), slotStates, blockBits, {})
      ensures changed <==> AnyBits(blockBits, {})
      ensures !changed ==> slotStates == old(slotStates) && coverageSamples == old(coverageSamples)
      ensures Listed(blockBits, keys, {})
      ensures coverageSamples == AfterSamples(old(coverageSamples), old(slotStates), atts, keys)
    {
      ghost var states, samples := slotStates, coverageSamples;
      var rest := blockBits.Keys;
      changed, keys := false, [];
      while rest != {}
        invariant rest <= blockBits.Keys && Valid() && SameVotes(states, slotStates)
        invariant ChainProgress(states, slotStates, blockBits, rest)
        invariant changed <==> AnyBits(blockBits, rest)
        invariant !changed ==> slotStates == states && coverageSamples == samples
        invariant Listed(blockBits, keys, rest) && coverageSamples == AfterSamples(samples, states, atts, keys)
        decreases |rest|
      {
        var key :| key in rest;
        var recorded := RecordNext(key, blockBits, atts, states, rest);
        ListOneMore(samples, states, atts, blockBits, keys, rest, key);
        rest := rest - {key};
        changed := changed || recorded;
        keys := keys + [key];
      }
    }

    method RecordNext(key: Key, blockBits: Bits, ghost atts: seq<Attestation>, ghost states: States, ghost rest: set<Key>)
      returns (changed: bool)
      requires Valid() && key in rest && key in blockBits && key.0 in states
      requires BitsFit(states, blockBits) && AreBits(states, atts, blockBits)
      requires SameVotes(states, slotStates) && ChainProgress(states, slotStates, blockBits, rest)
      modifies this`slotStates, this`coverageSamples
      ensures Valid() && SameVotes(states, slotStates) && ChainProgress(states, slotStates, blockBits, rest - {key})
      ensures changed <==> Members(blockBits[key]) != {}
      ensures !changed ==> slotStates == old(slotStates) && coverageSamples == old(coverageSamples)
      ensures coverageSamples == AfterSample(old(coverageSamples), NamedSet(states, atts, key), VotersAt(states, key.0, key.1))
    {
      assert OnlyBlocksAt(states, slotStates, key.0);
      OnlyBlocksKeepsVoters(states[key.0], slotStates[key.0], key.1);
      BitsAreNamed(states, atts, blockBits, key);
      assert SlotOk(threshold, slotStates[key.0]);
      RecordStep(threshold, states, slotStates, blockBits, rest, key);
      NoMembers(blockBits[key]);
      changed := RecordBits(key, blockBits[key]);
    }

    method BuildCoverage() returns (seen: nat, total: nat)
      ensures seen == SumSeen(coverageSamples) && total == SumTotal(coverageSamples)
    {
      seen, total := 0, 0;
      for i := 0 to |coverageSamples|
        invariant seen == SumSeen(coverageSamples[..i]) && total == SumTotal(coverageSamples[..i])
      {
        assert coverageSamples[..i + 1][..i] == coverageSamples[..i];
        seen, total := seen + coverageSamples[i].seen, total + coverageSamples[i].total;
      }
      assert coverageSamples[..|coverageSamples|] == coverageSamples;
    }

    // ----- what the subscribers get -----

    /**
     The head root of a tracked slot: the threshold check has sent its update once, exactly when its voters weigh enough,
     and once more for every earlier life of the root that was announced and then dropped.
     */
    lemma HeadAnnounced(slot: nat)
      requires Valid() && slot in slotStates && slotStates[slot].headRoot in slotStates[slot].roots
      ensures var root := slotStates[slot].headRoot;
        ByThreshold(fired)[(slot, root)] == lost[(slot, root)] + if VotersMeet(threshold, slotStates[slot], root) then 1 else 0
    {
      assert SlotOk(threshold, slotStates[slot]);
      HeadFiredIffCrossed(threshold, slotStates[slot]);
      assert OnceAt(fired, lost, slotStates, (slot, slotStates[slot].headRoot));
    }

    /** Any root of any slot, tracked or not: a second update is sent only after an announced life was dropped. */
    lemma AnnouncedTwiceIffLost(k: Key)
      requires Valid()
      ensures ByThreshold(fired)[k] > 1 <==> lost[k] > 1 || (lost[k] == 1 && HasFired(slotStates, k))
      ensures ByThreshold(fired)[k] == 0 <==> lost[k] == 0 && !HasFired(slotStates, k)
    {
      assert OnceAt(fired, lost, slotStates, k);
    }
  }
}
