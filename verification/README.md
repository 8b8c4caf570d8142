# buildoor: verified core

buildoor is an Ethereum block builder. This project models the algorithms and state machines at its centre in Dafny
and proves what they promise, module by module:

- **Duties** (`Shuffle`, `Committees`, `Ptc`, with `Arith` and `Bytes`). The swap-or-not shuffle of a validator list,
  done in place with a cached hash and a cached byte, gives for every list, seed and round count what
  `compute_shuffled_index` of the consensus specification (phase0, beacon-chain.md) says element by element. The
  committees cut from it are those of `compute_committee`; they tile the list, so every active validator has exactly one
  seat per epoch. The payload timeliness committee is filled to size by members of the slot's committees.
- **Pending deposits** (`DepositSim`). The early-onboarding estimate against runs of the Electra rules for pending
  deposits that may stop at any entry and in which validators may exit meanwhile, and the exact condition under which the
  estimate is an upper bound.
- **Write-behind store** (`Store`, `StoreRuns`). Every interleaving of writers, flushes, failures and requeues.
- **Reveal service** (`Reveal`, `RevealRetries`, `RevealService`). Gates, retries, expiry, dedupe and pruning over whole
  runs: never too early, never too often, and not given up before the budget is spent.
- **Inclusion verdicts** (`Inclusion`). Verdicts on won slots on a block tree with reorgs and failing fetches.
- **Head votes** (`VoteBits`, `AggregateBits`, `HeadVotes`, `HeadVoteStates`, `HeadVoteCoverage`, `HeadVoteTracker`,
  `HeadVoteRuns`). Bitmaps, counters, committee layout and subnet coverage, which must agree with a recomputation and, in
  validators, with the duties; and how often the threshold update of a root is sent.
- **Smaller modules**: `QueueFee` (EIP-7002 fee), `Settings` and `SettingsService` (layered settings across restarts),
  `Coalescing` and `CoalescingTracker` (update events), `Requests` (EIP-7685 lists), `PlanUpdate` and `PlanService` (slot
  plans), `Migration`.

Code that changes state is modelled by classes and methods over the same fields, and each method is tied to a function
of the old state; the properties over runs are lemmas about those functions. SHA-256, decoders, `resolveFrozenPlan`,
the beacon node, the clock and the database's success or failure are parameters.

Six statements in the code's own comments or design do not hold as they stand. Each has a lemma with the failing case,
and the exact condition is proved:

- The deposit estimate need not be an upper bound when an entry belongs to an exited or withdrawn validator, because such
  entries use no churn. It is one for all amounts, budgets and runs exactly when every queued deposit is of a validator
  that is active and does not leave before the fork (`DepositSim.SoundIffAllKeep`, `DepositSim.UnsoundAt`). Counting the
  deposits of those that leave as 0 is not enough (`DepositSim.ZeroWeightIsNotEnough`). A given queue can be decided when
  no queued validator changes before the fork (`DepositSim.ReliableIffWeighted`), and there is a bound that no exit can
  break (`DepositSim.KeptWhoeverLeaves`).
- Attaching persistence in two locked sections undoes a delete that falls between them
  (`StoreRuns.AttachAmongWriters`, `StoreRuns.DeleteDuringLoadIsUndone`).
- A reveal slot with a deadline bypass can be published twice (`Reveal.NeverTwiceIffNoBypass`).
- The trailing update of a slot is always delivered, but not always last: a flush that has taken a result can be overtaken
  before it delivers it. It is last if its delivery leaves no older result in flight, and only then; which holds when
  every flush delivers within FIRE_INTERVAL and its window is not pruned meanwhile (`Coalescing.FinalStateLast`). The bound
  is tight (`CoalescingTracker.StaleFinalDelivery`).
- The threshold update of a root is sent once, as long as the root stays tracked. A root that was announced and then
  evicted by a new head, or pruned, can be announced again (`HeadVoteTracker.Tracker.AnnouncedTwiceIffLost`,
  `HeadVotes.FiresAgain`), even if every member votes only once (`HeadVoteRuns.SecondAnnouncement`). No new head evicts an
  announced root while members vote for one root each and the threshold is above a quarter, by as much as the weights
  differ (`HeadVoteTracker.AnnouncedStays`).
- The bound on the targets of one plan update fails when the size of the range wraps around to 0
  (`PlanUpdate.TargetSlots`).

One branch is dead: `processDue` parks a reveal whose gate is closed until its expiry, but no reachable due reveal has a
closed gate before its expiry (`Reveal.DueRoundProgresses`). A setting of 2^63 attempts or more is negative as an int and
counts as one attempt (`RevealRetries.Budget`).

`dafny verify dfyconfig.toml` checks the project.

## Model

| member | source | states |
|---|---|---|
| Shuffle.RoundIsInvolution | pkg/chain/duties.go:221-250 | one round of the shuffle, applied twice, moves every index back to where it was |
| Shuffle.PivotIs | pkg/chain/duties.go:221-229 | the pivot of a round is the remainder of the first eight bytes, least significant first, of the hash of seed and round |
| Shuffle.SwapBitAt | pkg/chain/duties.go:267-291 | the bit of a position is the bit of that number in the hash of seed, round and the position's block of 256, its number as four bytes, least significant first |
| Bytes.BitsOfSum | pkg/chain/duties.go:283-287 | bit k of a byte stands for 2^k |
| Shuffle.RoundExchanges | pkg/chain/duties.go:221-250 | a round exchanges the two indices that add up to the pivot, or to the pivot and n, exactly when the bit of the larger is set |
| Shuffle.RoundAfterRounds | pkg/chain/duties.go:195-264 | no rounds move nothing, and each further round is applied to what the rounds before it make of the index |
| Shuffle.ShuffledIndexBijective | pkg/chain/duties.go:195-264 | running the rounds backwards inverts `compute_shuffled_index` on both sides, for every list size, seed and round count |
| Shuffle.ShuffleRoundTrip | pkg/chain/duties.go:185-195 | shuffling and unshuffling undo each other in either order, for every list |
| Shuffle.SwapOrNot | pkg/chain/duties.go:267-291 | given a cache that is right for j, or for j+1 when j crosses a block or byte, the cache returned is the true hash and byte of j, and i and j are swapped exactly when the bit of j says so |
| Shuffle.FlipSegment | pkg/chain/duties.go:229-248 | one mirrored loop visits each flip pair of its segment exactly once and leaves the rest alone |
| Shuffle.InnerShuffleList | pkg/chain/duties.go:195-264 | the in-place list is the per-index permutation of the input (backwards or forwards, rounds cut to 8 bits), no element lost or repeated; error and no change above 2^40 |
| Committees.UnshuffledValidators | pkg/chain/duties.go:130-142 | the unshuffled list holds validator `compute_shuffled_index(i)` at place i |
| Committees.GetAttesterDuties | pkg/chain/duties.go:125-168 | every slot gets, in order, the committees of `compute_committee`; their number is between 1 and a positive cap, with at least the target size for each if there is more than one, and one more would not fit below the cap; the out-of-range error cannot occur without overflow |
| Committees.SlotCommitteeCountIs | pkg/chain/duties.go:171-183 | the number of committees of a slot by inequalities without a quotient, also for a cap of 0 |
| Committees.SplitIsExact | pkg/chain/duties.go:80-82 | the 64-bit offset is the exact quotient unless listSize * chunks overflows |
| Committees.CommitteeSizes | pkg/chain/duties.go:146-163 | committee sizes differ by at most one |
| Committees.CommitteesTile | pkg/chain/duties.go:144-165 | the committees laid end to end are the shuffled list: nothing lost, nothing repeated |
| Committees.DutiesTile | pkg/chain/duties.go:125-168 | the duties of the epoch, slot after slot and committee after committee, are the shuffled list of all validators |
| Committees.InExactlyOneCommittee | pkg/chain/duties.go:125-183 | every active validator has exactly one seat in the epoch, if and only if the cap is positive or there are fewer validators than one target committee for every slot |
| Ptc.OnePerCycle | pkg/chain/duties.go:325-344 | a member that is always accepted fills one place in every pass over the members |
| Ptc.FullMemberHits | pkg/chain/duties.go:329-342 | a member with the maximum effective balance is accepted at every draw |
| Ptc.RandomValueAt | pkg/chain/duties.go:325-338 | one hash of the seed and a block number serves sixteen draws, two bytes to each, least significant first |
| Ptc.AcceptedInProportion | pkg/chain/duties.go:329-342 | of the 65536 random values a balance of at most the maximum is accepted by its proportional share, balance * 65535 / maximum rounded down, plus one |
| Ptc.AcceptsUpToQuota | pkg/chain/duties.go:329-342 | and by exactly the lowest ones |
| Ptc.KeptByQuota | pkg/chain/duties.go:325-344 | each draw keeps its candidate exactly when its random value is within the share of that balance |
| Ptc.KeptInOrder | pkg/chain/duties.go:325-344 | raising balances never costs anyone a place: after any number of draws everyone kept before is kept as often |
| Ptc.GetPtcDuties | pkg/chain/duties.go:295-347 | with a member of maximum balance: ends within PtcSize * members draws, with exactly PtcSize entries, all members of the slot's committees, in the order drawn and kept by the balance-weighted draws up to the one that fills the last place; error exactly for empty committees |
| DepositSim.SimulateDepositSurvives | pkg/lifecycle/pending_deposit_sim.go:60-115 | the nested loops compute the simulation; never true when no deposit may be processed |
| DepositSim.EpochDrainsWhatFits | pkg/lifecycle/pending_deposit_sim.go:76-112 | one simulated epoch drains exactly the entries that fit into budget and cap; unused budget is carried where the budget stopped it and lost where the cap did |
| DepositSim.SurvivesIffOutweighs | pkg/lifecycle/pending_deposit_sim.go:60-115 | where the cap never matters, the deposit survives if and only if the rest of the queue with it outweighs the budget of all epochs |
| DepositSim.ExitedStayQueued | pkg/lifecycle/pending_deposit_sim.go:14-22 | in the runs compared with, deposits of exited validators and arrivals stay queued, and nothing else appears |
| DepositSim.SurvivesIffEveryRunKeeps | pkg/lifecycle/pending_deposit_sim.go:14-22 | for every queue of which no validator changes up to the fork: no allowed run of as many transitions, stopping early anywhere, with churn up to the limit, new arrivals and other validators exiting, drains our deposit exactly when the simulation says yes with the amounts of exited and withdrawn validators set to 0 |
| DepositSim.EpochStaysBehind | pkg/lifecycle/pending_deposit_sim.go:76-112 | one transition of any run in which the validators of the front entries are still what they were stays behind the head simulated on their weights, in entries and in head sum plus carried budget |
| DepositSim.ReliableIffWeighted | pkg/lifecycle/pending_deposit_sim.go:14-22 | for one given queue of which no validator changes before the fork, a yes of the estimate holds in every run if and only if the yes stands with the churn-free amounts set to 0, which can be computed |
| DepositSim.NoIsRight | pkg/lifecycle/pending_deposit_sim.go:14-22 | whatever the validators are and whoever leaves, when the estimate says no some allowed run drains our deposit |
| DepositSim.SoundIffAllKeep | pkg/lifecycle/pending_deposit_sim.go:14-22 | every yes holds in every run, whatever the amounts and budgets and whenever those validators leave that may, if and only if no queued deposit is of a validator that is exited, withdrawn, or may leave before the fork |
| DepositSim.UnsoundAt | pkg/lifecycle/pending_deposit_sim.go:14-22 | any queued deposit of another validator makes a yes wrong, for any number of transitions and with amounts, own deposit and churn all positive, even if the validator leaves only before the last one |
| DepositSim.ZeroWeightIsNotEnough | pkg/lifecycle/pending_deposit_sim.go:14-22 | a run in which all validators are active at first and one exits after the first transition: the deposit is drained although the estimate says yes for the amounts and for those with this one set to 0 |
| DepositSim.KeptWhoeverLeaves | pkg/lifecycle/pending_deposit_sim.go:14-22 | whoever leaves and whenever, no allowed run drains our deposit when the deposits of the validators that stay, with ours, exceed the whole budget up to the fork, or the queue is longer than the caps of all transitions together |
| DepositSim.ChurnLimitMonotone | pkg/lifecycle/pending_deposit_sim.go:31-49 | more active balance never lowers the churn limit, so a falling balance keeps the estimate safe |
| DepositSim.ChurnLimitIs | pkg/lifecycle/pending_deposit_sim.go:31-49 | the limit is the one number that is the larger of the balance's share and the minimum, rounded down to a multiple of the increment if there is one, and cut at the cap if there is one, with the share and the rounding stated by multiplication |
| DepositSim.DepositSurvivesUntilFork | pkg/lifecycle/pending_deposit_sim.go:122-159 | yes exactly when statistics, spec and a future fork are known and, if all queued deposits are of active validators that do not leave before the fork, no allowed run up to it, each epoch with the churn limit of its own balance, drains ours |
| DepositSim.KeptIffWeighted | pkg/lifecycle/pending_deposit_sim.go:140-158 | when no queued validator changes before the fork and the active balance does not rise: kept in every run up to the fork exactly when the simulation on the weights says so |
| Store.MemStore.Put | pkg/memstore/store.go:239-258 | true: the key holds the value, is marked dirty when attached, and every other key is unchanged; false, exactly for a present key of a keep-existing store: nothing changes |
| Store.MemStore.Delete | pkg/memstore/store.go:317-332 | the entry goes and, when attached, its deletion is pending; every other entry stays |
| Store.MemStore.Prune | pkg/memstore/store.go:338-360 | exactly the entries asked for go, are pending deletions when attached, and are counted |
| Store.MemStore.Clear | pkg/memstore/store.go:363-376 | as pruning everything |
| Store.MemStore.TakeBatch | pkg/memstore/store.go:170-194 | the pending sets are swapped out as one batch; none when nothing is pending |
| Store.MemStore.Requeue | pkg/memstore/store.go:214-234 | a failed batch is pending again except where newer writes have decided otherwise |
| Store.MemStore.AttachBegin | pkg/memstore/store.go:102-122 | the first attach marks all entries dirty, a second is ignored |
| Store.MemStore.AttachEnd | pkg/memstore/store.go:129-135 | loaded rows never overwrite entries |
| StoreRuns.StepKeepsInv | pkg/memstore/store.go:170-402 | every write, take, success, partial failure, requeue and attach keeps the invariant |
| StoreRuns.ReachableState | pkg/memstore/store.go:170-402 | in every reachable state: dirty keys are present, deleted ones absent, the sets disjoint; a key outside both and outside the batch in flight is the same in memory and table; one only in the batch is what the batch carries |
| StoreRuns.QuiescentFlush | pkg/memstore/store.go:170-210 | a successful quiescent flush makes the table equal to the entries, up to exactly the rows that a failed load left unknown |
| StoreRuns.FailedFlush | pkg/memstore/store.go:196-234 | a failed flush, even if partly applied, followed by the requeue leaves the store as it was |
| StoreRuns.RetriesLoseNothing | pkg/memstore/store.go:196-234 | after any number of failed flushes one success still writes everything |
| StoreRuns.NothingIsLost | pkg/memstore/store.go:102-234 | from a new store over any table, through any interleaving in which loads succeed: any number of failed flushes and one success leave exactly the entries in the table |
| StoreRuns.ReadersSeeOnlyWrites | pkg/memstore/store.go:170-376 | flushing in the background never changes what readers see |
| StoreRuns.EntriesAreHeld | pkg/memstore/store.go:102-376 | in every interleaving with flushes, failures and the attach a key holds what its writes say, in order: the last put not refused by keep-existing, nothing after a delete or a matching prune, or the row that the attach found for an absent key |
| StoreRuns.LastPutIsHeld | pkg/memstore/store.go:239-376 | without keep-existing a key holds the value of its last put until a delete or a matching prune, in every run |
| StoreRuns.AttachEndExact | pkg/memstore/store.go:117-135 | with writers between the two sections of the attach, the invariant holds afterwards if and only if no loaded key was deleted meanwhile |
| StoreRuns.AttachAmongWriters | pkg/memstore/store.go:102-135 | for any run of writers between the sections: if and only if every loaded key that was in memory at some time since the first section still is at the second |
| StoreRuns.DeleteDuringLoadIsUndone | pkg/memstore/store.go:117-135 | such a delete: the entry is back in memory while the table loses it |
| StoreRuns.Flush | pkg/memstore/store.go:170-210 | one flush of the class over a table: on success nothing is pending and the table equals the entries, on failure nothing has changed |
| Reveal.AttemptsOnlyWhenOpen | pkg/payload_bidder/reveal_service.go:286-533 | in every run each publish attempt is made with the slot's gate open in truth: time reached and/or a threshold vote on the committing root, although votes after a first attempt are taken unchecked |
| Reveal.StepKeepsInv | pkg/payload_bidder/reveal_service.go:253-618 | requests, votes and timer rounds keep that the gate flag means what it says |
| Reveal.RunKeepsPrompt | pkg/payload_bidder/reveal_service.go:286-452 | in every run a pending reveal without an attempt yet is due from the moment when its gate is open: no opening is slept over |
| Reveal.RunKeepsOnce | pkg/payload_bidder/reveal_service.go:337-618 | without a deadline bypass: at most one success and at most MaxAttempts attempts over the whole run, although the dedupe markers are pruned |
| Reveal.NeverTwiceIffNoBypass | pkg/payload_bidder/reveal_service.go:337-402 | no run publishes a slot twice if and only if the slot has no deadline bypass or is suppressed |
| Reveal.PublishedTwice | pkg/payload_bidder/reveal_service.go:606-618 | a run of a bypassing slot with two publications |
| Reveal.DueRoundProgresses | pkg/payload_bidder/reveal_service.go:468-533 | a due round finishes the reveal or spends an attempt; it never parks it |
| Reveal.DoneWithinBudget | pkg/payload_bidder/reveal_service.go:468-602 | a scheduled reveal is done after at most MaxAttempts due rounds, in any run |
| RevealRetries.GivenUpOnlyWhenSpent | pkg/payload_bidder/reveal_service.go:468-602 | in every run a reveal that was tried is done only after a success or exactly MaxAttempts attempts, each at least the retry interval after the one before; one never tried only as suppressed or at the end of its time |
| RevealRetries.TriedExactlyWhenDue | pkg/payload_bidder/reveal_service.go:468-602 | in every run a timer round makes an attempt exactly when the gate is open, for a reveal not tried yet, and exactly from the retry interval after the last attempt on, for one that was; it is then done exactly if built and published or the budget is spent |
| RevealRetries.RequestDecides | pkg/payload_bidder/reveal_service.go:329-463 | only the first request of a slot counts; it is taken up exactly if the slot is not suppressed and it comes in time or bypasses the deadline, with the gate met exactly by a participation at the threshold |
| RevealRetries.VoteOpensGate | pkg/payload_bidder/reveal_service.go:286-319 | while a reveal waits untried, exactly the votes on its root that reach the threshold open its gate |
| RevealRetries.VoteKeepsSchedule | pkg/payload_bidder/reveal_service.go:286-298 | once tried, votes leave the retry schedule alone and record the gate as met |
| RevealRetries.MarkerKept | pkg/payload_bidder/reveal_service.go:606-618 | an entry goes exactly with a timer round that finds or makes it done, later than two slots after the slot's start |
| RevealService.Service.Schedule | pkg/payload_bidder/reveal_service.go:329-463 | the handler is the per-slot step for a request, for this slot and no other |
| RevealService.Service.HandleVoteUpdate | pkg/payload_bidder/reveal_service.go:286-319 | the per-slot step for a vote, for this slot and no other |
| RevealService.Service.ProcessDue | pkg/payload_bidder/reveal_service.go:468-566 | a timer round is the per-slot step of every slot (`RevealRetries.TriedExactlyWhenDue`), and the prune |
| RevealService.Service.HandlePublishFailure | pkg/payload_bidder/reveal_service.go:572-602 | the step after a failed attempt, for this slot: due again after the retry interval, or done with the budget spent (`RevealRetries.GivenUpOnlyWhenSpent`) |
| RevealService.Service.PruneDone | pkg/payload_bidder/reveal_service.go:606-618 | only done entries more than two slots old go |
| RevealService.Service.Rearm | pkg/payload_bidder/reveal_service.go:623-649 | the timer never sleeps past the earliest pending attempt, nor over an hour, and wakes for one of them |
| Inclusion.FirstAfterIsFirst | pkg/payload_bidder/inclusion_tracker.go:267-290 | the walk's successor block is the first ancestor of the head after the slot |
| Inclusion.VerdictIsExact | pkg/payload_bidder/inclusion_tracker.go:224-297 | orphaned iff the won block is no ancestor of the head; canonical iff it is and the first block after commits to our hash; missed otherwise |
| Inclusion.SightSame | pkg/payload_bidder/inclusion_tracker.go:301-319 | looking at a head again with the same answers, whatever of them is cached by now, sees the same |
| Inclusion.ResolvableIsSeen | pkg/payload_bidder/inclusion_tracker.go:224-319 | a win that the cache before the head and the answers of its own walk resolve does get the head's verdict, whatever was fetched for the other wins |
| Inclusion.Tracker.GetBlock | pkg/payload_bidder/inclusion_tracker.go:301-319 | the block of the tree exactly when it is cached or can be fetched |
| Inclusion.Tracker.ResolveVerdict | pkg/payload_bidder/inclusion_tracker.go:267-297 | ends on every tree with older parents, with the tree's verdict, exactly when the chain down to the slot can be resolved |
| Inclusion.Tracker.EvaluateTrackedWins | pkg/payload_bidder/inclusion_tracker.go:224-262 | every tracked win sees what the head says of it, with the answers of its own walk and a cache no smaller than before; held verdict, last event and last resolvable head stay in agreement; events are fired only for changed verdicts, at most one for a win |
| Inclusion.Tracker.PruneTracking | pkg/payload_bidder/inclusion_tracker.go:323-345 | exactly the wins more than 16 slots and blocks more than 20 slots behind the head go |
| Inclusion.Tracker.CheckForOurPayload | pkg/payload_bidder/inclusion_tracker.go:368-428 | arming overwrites an earlier win of the slot and resets its verdict |
| Inclusion.Tracker.ProcessBlockInfo | pkg/payload_bidder/inclusion_tracker.go:208-214 | for every tracked win, over any run, the last verdict fired since it was armed is that of the last head that could be resolved, and every event fired is for a changed verdict, once for a win, and carries the tree's verdict and successor block |
| VoteBits.CountIsSize | pkg/chain/headvotes.go:901-908 | counting bytewise counts the positions held |
| VoteBits.MasksDouble | pkg/chain/headvotes.go:880-898 | position 0 of a byte is its least significant bit and each next one the next higher |
| VoteBits.MembersOfSetBit | pkg/chain/headvotes.go:891-898 | setting a bit adds that position and no other |
| VoteBits.PopCount | pkg/chain/headvotes.go:901-908 | the number of positions in the bitmap |
| VoteBits.PopCountAnd | pkg/chain/headvotes.go:911-920 | the number of positions in both bitmaps |
| VoteBits.BuildCommitteeLayout | pkg/chain/headvotes.go:675-725 | offsets are prefix sums, positions the committees laid end to end, weights and total the members' balances; none exactly without duties |
| VoteBits.PositionsAreInverse | pkg/chain/headvotes.go:711-722 | positions and validators are inverse bijections if and only if no validator is listed twice |
| VoteBits.SlotValidatorsDistinct | pkg/chain/headvotes.go:675-725 | which holds for the duties of a real epoch |
| AggregateBits.MarkAttesters | pkg/chain/headvotes.go:731-765 | the walk sets exactly the visited positions, Electra or earlier format |
| AggregateBits.VisitsExactlyTheAttesters | pkg/chain/headvotes.go:731-765 | a member is visited exactly when `get_attesting_indices` of the consensus specification names it |
| AggregateBits.AttestersHaveBits | pkg/chain/headvotes.go:731-765 | the reference itself: the aggregation bits are those of the members of the selected committees laid end to end, or of the one committee of the index |
| HeadVotes.RootBounds | pkg/chain/headvotes.go:88-98 | participation never exceeds the slot's total, votes never its members |
| HeadVotes.VotedIsOk | pkg/chain/headvotes.go:567-576 | after one vote count, weight and arrival times are again those recomputed from the bitmap, which has gained that position |
| HeadVotes.VotesCommute | pkg/chain/headvotes.go:563-576 | votes in another order or repeated give the same bitmap, count and weight |
| HeadVotes.FirstArrivalKept | pkg/chain/headvotes.go:563-571 | the arrival time kept for a member is that of its first vote |
| HeadVotes.CrossedIff | pkg/chain/headvotes.go:769-791 | the threshold is met exactly when a hundred times the weight is at least the threshold times the slot's total |
| HeadVotes.WithHeadIsOk | pkg/chain/headvotes.go:384-397 | the head is tracked, at most four roots are, and only a least-voted one is evicted, only for want of room |
| HeadVotes.FiresAgain | pkg/chain/headvotes.go:380-402 | the failing case of "once": a root that a new head evicts and that becomes head again starts over, and any votes that weigh enough, in any order, make the check fire for it again |
| HeadVoteStates.AcceptedSeat | pkg/chain/headvotes.go:551-561 | an attestation passes the seat check exactly when the duties seat its attester in the committee claimed |
| HeadVoteStates.SettledOnce | pkg/chain/headvotes.go:769-791 | storing a slot's new state and checking one of its roots sends an update exactly when that root becomes marked, and keeps the count of updates right for every root of every slot |
| HeadVoteStates.UpdateTells | pkg/chain/headvotes.go:769-791 | every update carries the count, weight and threshold flag recomputed from the votes |
| HeadVoteStates.FiresForLeader | pkg/chain/headvotes.go:769-791 | an unmarked root at the threshold is announced if it is the head, or leads alone without a tracked head, and none is announced that neither is the head nor, without one, leads |
| HeadVoteTracker.Tracker.GetOrCreateSlotState | pkg/chain/headvotes.go:600-631 | created exactly from 8 slots behind the wall clock to 1 ahead with duties for the slot, then empty and with the layout of those duties |
| HeadVoteTracker.Tracker.MaybeFireThreshold | pkg/chain/headvotes.go:769-791 | the update is sent, with the counters of that moment, exactly when the root becomes marked: primary, unmarked and at the threshold |
| HeadVoteTracker.Tracker.HandleSingleAttestation | pkg/chain/headvotes.go:539-581 | the root is tracked if it was or fewer than four are; its validators counted then gain exactly the attester, if its claimed seat is that of the duties, at its clamped first arrival time; nothing else changes; the call that makes the root reach the threshold sends exactly one update |
| HeadVoteTracker.Tracker.HandleHeadEvent | pkg/chain/headvotes.go:380-410 | the slot becomes what naming the head makes of it, a head that becomes marked is announced once, exactly the slots more than 8 behind go, and the announced roots dropped are recorded |
| HeadVoteTracker.HeadStateMeans | pkg/chain/headvotes.go:384-402 | naming a head: it is tracked, votes of the remaining roots stay, only a least-voted root goes, only out of four and for a head not tracked yet, a head at the threshold is marked as announced, and a new head with votes is looked at by the next flush |
| HeadVoteTracker.AnnouncedStays | pkg/chain/headvotes.go:633-651 | a head event never evicts an announced root if members vote for one root each and threshold * lowest weight exceeds 25 * highest weight |
| HeadVoteRuns.BallotKeepsOneEach | pkg/chain/headvotes.go:539-581 | a vote of a member that has voted for no other tracked root keeps the condition that members vote for one root each |
| HeadVoteTracker.Tracker.HeadAnnounced | pkg/chain/headvotes.go:769-791 | in every valid state the threshold updates sent for the head root number one if its recomputed weight is at or above the threshold, plus one for every announced life of it that was dropped |
| HeadVoteTracker.Tracker.AnnouncedTwiceIffLost | pkg/chain/headvotes.go:640-648 | for any slot and root, tracked or not, a second update was sent if and only if an announced life was dropped and announced again |
| HeadVoteTracker.Tracker.FlushDirty | pkg/chain/headvotes.go:795-811 | the updates sent are one for each slot whose primary root is dirty and one point above the last update, with its counters, and none for any other slot; afterwards every slot's primary root is less than one point above what was last sent |
| HeadVoteTracker.NeedsFlushMeans | pkg/chain/headvotes.go:795-811 | an update is due exactly when the percentage is one point or more above the last one sent |
| HeadVoteTracker.Tracker.CollectBlockBits | pkg/chain/headvotes.go:449-475 | per tracked slot and root exactly the positions that some attestation names |
| HeadVoteTracker.Tracker.RecordBits | pkg/chain/headvotes.go:479-507 | the sample is members named and members named and seen; at most 16 samples, seen never above total |
| HeadVoteTracker.Tracker.RecordBlockAttestations | pkg/chain/headvotes.go:445-535 | only block bitmaps change; each tracked root also learns exactly the validators that `get_attesting_indices` names in the block for it; the window gains, in some order of the slots and roots named, one sample each; the coverage flag follows its hysteresis |
| HeadVoteCoverage.NamedAreAttested | pkg/chain/headvotes.go:458-475 | the positions that a block's attestations name for a slot and root are those of their attesting validators |
| HeadVoteCoverage.RecordedTracks | pkg/chain/headvotes.go:479-495 | a root is tracked for a block only if the block names a member for it and there is room, and a bitmap without members changes nothing |
| HeadVoteCoverage.NewestSamples | pkg/chain/headvotes.go:495-507 | a measured block comes last in the window, which keeps the newest sixteen |
| HeadVoteCoverage.SumsOfConcat | pkg/chain/headvotes.go:242-259 | the percentage is of the sums over the window, in which every sample counts once |
| HeadVoteCoverage.NextLowIff | pkg/chain/headvotes.go:509-535 | low with fewer than 80 of 100 attesters seen in at least 8 samples of at least 16 attesters together, and until 90 of 100 are seen |
| HeadVoteRuns.VoteIsBallot | pkg/chain/headvotes.go:539-581 | an attestation of a seated member adds exactly its position to the voters of its root, or changes nothing when four other roots are tracked |
| HeadVoteRuns.HeadIsNew | pkg/chain/headvotes.go:380-402 | a new head is tracked with the voters it had; at most one root goes for it, out of four and with the fewest votes |
| HeadVoteRuns.SecondAnnouncement | pkg/chain/headvotes.go:380-402 | a run of the tracker, of eight votes by eight members and three head events, that sends the threshold update of one root twice |
| QueueFee.FakeExponential | pkg/lifecycle/contract.go:163-175 | ends for every numerator and positive denominator |
| QueueFee.FeeAtLeastFactor | pkg/lifecycle/contract.go:154-175 | at least the factor |
| QueueFee.FeeAtLeastLinear | pkg/lifecycle/contract.go:154-175 | at least factor * (1 + numerator/denominator), rounded down |
| QueueFee.FeeBelowTaylorSum | pkg/lifecycle/contract.go:154-175 | never above the exact sum of as many Taylor terms of factor * e^(numerator/denominator) as there are iterations |
| QueueFee.FeeAboveTaylorSum | pkg/lifecycle/contract.go:154-175 | never below the exact sum of any number of those terms by more than what rounding down in each iteration and at the end can lose |
| QueueFee.FeeMonotone | pkg/lifecycle/contract.go:154-175 | monotone in factor and numerator |
| QueueFee.ReadQueueFee | pkg/lifecycle/contract.go:125-152 | errors, not deployed and inactive exactly as the code and slot 0 say; an active fee also pays for up to three requests ahead of ours |
| Settings.StartDecides | pkg/config/settings.go:119-157 | an unchanged flag leaves the configured value, a new or changed one overrides it |
| Settings.StartDrops | pkg/config/settings.go:119-157 | a flag no longer given leaves the last setting from the interface, or the default; one never given leaves the value |
| Settings.SetsDecide | pkg/config/settings.go:191-237 | settings from the interface win at once and leave the other keys alone |
| Settings.RestartReproduces | pkg/config/settings.go:119-157 | restarting with the same flags after any settings writes nothing |
| Settings.WriteKeepsKeys | pkg/config/settings.go:241-266 | after each write the layer with the highest sequence number is the last surviving write of the history |
| SettingsService.Service.constructor | pkg/config/settings.go:64-166 | after a start with any flags the effective value of every key is its last surviving write, the default if none |
| SettingsService.Service.SetMany | pkg/config/settings.go:191-237 | all or nothing; then each key named has its new value, the others theirs, and the same holds for the history with these writes |
| SettingsService.Service.Recompute | pkg/config/settings.go:241-260 | the effective configuration is that of the history |
| SettingsService.Service.ReadyForRestart | pkg/config/settings.go:82-112 | after any operation the rows suffice for the next start: distinct positive stamps below the high-water mark |
| SettingsService.Restart | pkg/config/settings.go:64-166 | the next run continues the history; without new writes it has the same configuration |
| Coalescing.UpsertKeepsInv | pkg/slot_results/tracker.go:717-771 | storing a result and delivering or suppressing it keeps, for the slot, that the stored record is delivered, in flight, or suppressed with a timer, and that a punctual flush is alone in its window |
| Coalescing.TakeKeepsInv | pkg/slot_results/tracker.go:775-788 | a timer that runs when it is due keeps that |
| Coalescing.LandKeepsInv | pkg/slot_results/tracker.go:790-793 | a late delivery keeps that, in any order with the others |
| Coalescing.UpdateReaches | pkg/slot_results/tracker.go:747-771 | an update is delivered at once unless the slot had a delivery in the last 1000 ms; then it alone is kept, with a timer for at most 1000 ms after that delivery |
| Coalescing.FlushReaches | pkg/slot_results/tracker.go:775-793 | the timer hands what is kept to a flush, which delivers it after everything delivered before |
| Coalescing.FinalStateLast | pkg/slot_results/tracker.go:717-807 | with nothing running the stored record was delivered, last if and only if its delivery left no older one in flight; last whenever every flush delivered within FIRE_INTERVAL and its window was not pruned |
| CoalescingTracker.Tracker.Upsert | pkg/slot_results/tracker.go:717-771 | the slot takes its step, stored then delivered now or kept for a flush by whether its window is open, and with a delivery the stale slots are forgotten |
| CoalescingTracker.Tracker.PruneCoalescing | pkg/slot_results/tracker.go:796-807 | with more than 64 fired slots exactly those more than 64 behind are forgotten |
| CoalescingTracker.OtherStep | pkg/slot_results/tracker.go:747-807 | an update of another slot changes a slot only by a delivery that makes more than 64 slots fired, and only one more than 64 behind: its window and its suppressed record are forgotten |
| CoalescingTracker.Tracker.TakeTrailing | pkg/slot_results/tracker.go:775-788 | a timer, not before its time, takes the suppressed record, if any, unless stopped, and opens a window |
| CoalescingTracker.Tracker.Deliver | pkg/slot_results/tracker.go:790-793 | the record taken is delivered, at any later time and possibly after others |
| CoalescingTracker.Tracker.PruneStore | pkg/slot_results/tracker.go:896-909 | exactly the records before the cutoff go |
| CoalescingTracker.Tracker.PruneFired | pkg/slot_results/tracker.go:911-917 | exactly the windows before the cutoff go; what is suppressed keeps its timer |
| CoalescingTracker.Tracker.NothingStranded | pkg/slot_results/tracker.go:741-793 | unless dropped by the prune, the stored record is delivered, being delivered, or suppressed with exactly one timer, which runs within FIRE_INTERVAL |
| CoalescingTracker.Tracker.FinalStateDelivered | pkg/slot_results/tracker.go:773-775 | when nothing runs for the slot its final state was delivered; it came last if and only if its delivery left no older record in flight, so always when every flush delivered in less than FIRE_INTERVAL with its window unpruned |
| CoalescingTracker.StaleFinalDelivery | pkg/slot_results/tracker.go:786-793 | a run with a flush that takes exactly FIRE_INTERVAL to deliver, after which subscribers end on an older record |
| Requests.EncodeOneDecodeOne | pkg/payload_builder/execution_requests.go:114-266 | a decoded record is printed back to its bytes, for all five layouts |
| Requests.DecodeOneEncodeOne | pkg/payload_builder/execution_requests.go:114-266 | a printed record decodes to itself |
| Requests.DecodedIsLaidOut | pkg/payload_builder/execution_requests.go:114-266 | every decoded field has the bytes at the offset that its layout gives it, numbers least significant byte first |
| Requests.ParseRecords | pkg/payload_builder/execution_requests.go:114-266 | rejects exactly the lengths not divisible by the record size, else all records in order |
| Requests.Parse | pkg/payload_builder/execution_requests.go:37-112 | fails exactly at the first wrong entry, with the error of that kind; else per type the requests of the last entry that holds any |
| Requests.RightIffPrinted | pkg/payload_builder/execution_requests.go:37-112 | an entry is accepted exactly if it is a type byte alone or the printed form of requests of one type that the fork knows |
| Requests.ParsePrint | pkg/payload_builder/execution_requests.go:32-36 | printed requests parse back to exactly themselves |
| Requests.PrintParse | pkg/payload_builder/execution_requests.go:32-36 | printing what was parsed gives back the bytes if and only if types strictly increase and every entry has data |
| PlanUpdate.TargetSlots | pkg/action_plan/types.go:467-512 | exactly the slots named and those of the range, in order; at most 6400 unless the range size wraps to 0 beside named slots |
| PlanUpdate.ApplySetPaths | pkg/action_plan/types.go:587-645 | the paths one after the other, failing at the first that fails |
| PlanUpdate.PathsByCategory | pkg/action_plan/types.go:587-645 | categories do not interact: a list of paths succeeds exactly when it is known and every category's own paths succeed on its object, and then does to each what those do |
| PlanUpdate.UpdateOf | pkg/action_plan/types.go:518-583 | an update succeeds exactly when its paths are known and every category's member and own paths succeed on the stored object; every category is then what these make of it, objects without instructions dropped |
| PlanUpdate.UntouchedCategory | pkg/action_plan/types.go:518-583 | a category that the update does not mention keeps its stored object |
| PlanUpdate.DeletedIsGone | pkg/action_plan/types.go:518-521 | a delete leaves no plan, whatever else the update says |
| PlanUpdate.MemberDecides | pkg/action_plan/types.go:712-730 | a category without entries in `set` becomes what its member says: kept without one, removed by null, else replaced by the decoded object |
| PlanUpdate.WholeEntryDecides | pkg/action_plan/types.go:587-645 | a category whose last entry in `set` is for the whole of it becomes what that entry says in the same way |
| PlanUpdate.EditsFollowMember | pkg/action_plan/types.go:518-583 | field edits act on what the member has made of the category |
| PlanUpdate.FieldEdits | pkg/action_plan/types.go:659-707 | after any number of field edits of a category each field has the value of its last edit or is removed by it, the other members stay, each as the decoder normalises that field, and a new category with a mode starts as custom |
| PlanUpdate.NewCategoryIsCustom | pkg/action_plan/types.go:659-707 | an absent category gets the mode custom by edits of other fields exactly if it has a mode |
| PlanUpdate.EditSucceedsIff | pkg/action_plan/types.go:659-707 | a field edit succeeds exactly if it has a value, does not null the mode, and the edited object decodes |
| PlanService.StageOne | pkg/action_plan/service.go:266-303 | one more slot can be staged exactly when it is unlocked, within the bound and takes its update |
| PlanService.SlotsAreTargets | pkg/action_plan/service.go:243-303 | the slots of a request are those that some update names or has in its range |
| PlanService.LastUpdateDecides | pkg/action_plan/service.go:266-303 | the last update of a slot is applied to what the earlier ones left and refused only by itself or Validate; a delete leaves no plan |
| PlanService.FoldedBy | pkg/action_plan/service.go:266-333 | a plan that a request leaves carries its slot and the actor and is valid |
| PlanService.AcceptedAreBounded | pkg/action_plan/types.go:478-494 | a request with the wrapping range is never accepted |
| PlanService.CategoryKept | pkg/action_plan/service.go:266-303 | through a whole request a category that no update of the slot mentions stays as stored |
| PlanService.Service.ApplyUpdates | pkg/action_plan/service.go:243-333 | all or nothing, accepted exactly when every targeted slot is unlocked and takes all its updates; then every slot holds the result of its updates one by one, also across delete and edit, valid and with the actor, and no other slot changes |
| PlanService.Service.Freeze | pkg/action_plan/service.go:159-177 | the first caller decides the snapshot; the plan frozen stays the stored plan |
| PlanService.Service.OnSlotBuilt | pkg/action_plan/service.go:181-190 | forced builds use no budget |
| PlanService.Service.PruneForEpoch | pkg/action_plan/service.go:343-376 | plans go with the retention window, markers with the epoch before the last |
| Migration.Database.MigrateWonBlocks | pkg/slot_results/migrate.go:19-99 | whatever step fails, the results are as before or fully merged, and the legacy rows go only after the merge |
| Migration.MergeAgain | pkg/slot_results/migrate.go:11-18 | merging again changes nothing |
| Migration.MigrationCompletes | pkg/slot_results/migrate.go:11-18 | after any crashed runs and one complete one: no decodable legacy row is left, every such slot has an inclusion, that of its won block field by field unless it had one, nothing recorded is overwritten, and slots without a legacy row are as before |
| Migration.CorruptResultIsReplaced | pkg/slot_results/migrate.go:46-84 | a result row that does not decode is replaced exactly when the slot has a won block |

## Left out

- Shuffle.InnerShuffleList: does not cover lists longer than 2^32 that the size check lets through, where the position is
  cut to 32 bits and the result is no longer the specified one.
- Committees.GetAttesterDuties: does not model the products wrapping around 64 bits; with at most 2^32 validators and
  real committee counts they do not. The seed is a parameter (getSeed and the randao mixes are not modelled).
- Ptc.GetPtcDuties: requires a member of maximum effective balance; without one the loop need not end.
- DepositSim.DepositSurvivesUntilFork: does not model sums wrapping around 64 bits, and takes the churn limit as constant
  or falling up to the fork.
- DepositSim.ReliableIffWeighted: decides a given queue only when no queued validator exits or becomes withdrawable before
  the fork, as do SurvivesIffEveryRunKeeps and KeptIffWeighted; otherwise KeptWhoeverLeaves is a sufficient condition.
- Reveal.RunKeepsOnce: does not model a plan that is resolved anew after its freeze marker is pruned; a slot has one
  setting for the whole run. Requests lost from a full channel are requests that never come.
- Inclusion.Tracker.CheckForOurPayload: models arming only, not the payment and the inclusion event.
- Inclusion.Tracker.ProcessBlockInfo: does not model won-block summaries and reveal requests sent on inclusion; whether a
  block commits to our payload is a parameter.
- HeadVoteTracker.Tracker.HandleSingleAttestation: does not model committee indices beyond the signed range of int, for
  which the conversion is negative. Percentages are exact rationals, not floating point, and the threshold is fixed.
- HeadVoteTracker.Tracker.RecordBlockAttestations: leaves the order of the samples of one block open, as the map order is.
  Bitmaps are values, so sharing of byte slices is not captured.
- PlanUpdate.FieldEdits: takes a decoder that treats each field by itself and names that match exactly; spellings of a name
  that differ in case are not modelled.
- SettingsService.Service.constructor: does not model rows that fail to decode or to be written, nor a disabled database.
- Settings.RestartReproduces: does not model keys that are registered in one version of the program and not in another.
- CoalescingTracker.Tracker.TakeTrailing: a timer may run at any time from its due time on, however late. Times are
  milliseconds, and the two sections of pruneForEpoch are two methods, between which anything may happen.
- PlanService.Service.ApplyUpdates: does not model the order of the change event; it is a map here. The JSON decoder,
  Validate and the sorting of set paths are parameters or done before.
- PlanService.Service.PruneForEpoch: a slot whose marker is pruned may be frozen anew with another snapshot.
- Migration.MigrateWonBlocks: does not model result values that fail to encode, which the batch skips, nor UpdatedAt stamps.
- Requests.Parse: the JSON form of the lists and the version tag of the result are not modelled.
- Flush loops, tickers, goroutine start and stop, logging and statistics, except where the order of steps matters.
- HTTP handlers, event streams, clients of the beacon, engine and execution interfaces, SQLite and the web interface.
- BLS, SSZ roots, EIP-2333 derivation, jq programs, resolveFrozenPlan and SendAndConfirm.
- Fork and engine tables, key codecs, payload cache, bid tracker and validator ranges, which would only add easy members.
