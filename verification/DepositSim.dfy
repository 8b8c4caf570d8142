/**
 The pending-deposit simulation of pkg/lifecycle/pending_deposit_sim.go, and the
 process it claims to bound: `process_pending_deposits` of the Electra consensus
 specification.
 */
module DepositSim {
  import opened Common
  import opened Arith

  // ----- the consensus process -----

  /** What the state knows of the validator behind a queued deposit. */
  datatype Kind = Active | Exited | Withdrawn

  /** The validators at one time, by number. */
  type Kinds = nat -> Kind

  datatype Deposit = Deposit(validator: nat, amount: nat, ours: bool)

  datatype Walked = Walked(next: nat, processed: nat, limited: bool, postponed: seq<Deposit>)

  /**
   The loop of process_pending_deposits from entry `next` on. It gives up at entry `stop` (not finalised yet, or
   the bridge not drained), at the per-epoch cap, or where the churn budget would be exceeded. A withdrawn
   validator's deposit is applied without using churn, an exited validator's is postponed to the back.
   */
  function Walk(queue: seq<Deposit>, kindOf: Kinds, next: nat, processed: nat, postponed: seq<Deposit>,
                available: nat, cap: nat, stop: nat): Walked
    requires next <= |queue|
    decreases |queue| - next
  {
    if next == |queue| || next >= stop || next >= cap then Walked(next, processed, false, postponed)
    else match kindOf(queue[next].validator)
      case Withdrawn => Walk(queue, kindOf, next + 1, processed, postponed, available, cap, stop)
      case Exited => Walk(queue, kindOf, next + 1, processed, postponed + [queue[next]], available, cap, stop)
      case Active =>
        if processed + queue[next].amount > available then Walked(next, processed, true, postponed)
        else Walk(queue, kindOf, next + 1, processed + queue[next].amount, postponed, available, cap, stop)
  }

  lemma {:induction false} WalkInRange(queue: seq<Deposit>, kindOf: Kinds, next: nat, processed: nat,
                                       postponed: seq<Deposit>, available: nat, cap: nat, stop: nat)
    requires next <= |queue|
    ensures var w := Walk(queue, kindOf, next, processed, postponed, available, cap, stop);
      && next <= w.next <= |queue|
      && (processed <= available ==> w.processed <= available)
      && |w.postponed| <= |postponed| + w.next - next
      && forall d :: d in w.postponed ==> d in postponed || (d in queue && kindOf(d.validator).Exited?)
    decreases |queue| - next
  {
    if next < |queue| && next < stop && next < cap {
      match kindOf(queue[next].validator)
      case Withdrawn => WalkInRange(queue, kindOf, next + 1, processed, postponed, available, cap, stop);
      case Exited => WalkInRange(queue, kindOf, next + 1, processed, postponed + [queue[next]], available, cap, stop);
      case Active =>
        if processed + queue[next].amount <= available {
          WalkInRange(queue, kindOf, next + 1, processed + queue[next].amount, postponed, available, cap, stop);
        }
    }
  }

  datatype Chain = Chain(queue: seq<Deposit>, toConsume: nat)

  /** What one epoch brings: the churn limit, where the walk has to stop, new deposits, and the validators. */
  datatype Epoch = Epoch(churn: nat, stop: nat, arrivals: seq<Deposit>, kindOf: Kinds)

  function Transition(c: Chain, cap: nat, e: Epoch): Chain
  {
    var w := Walk(c.queue, e.kindOf, 0, 0, [], c.toConsume + e.churn, cap, e.stop);
    WalkInRange(c.queue, e.kindOf, 0, 0, [], c.toConsume + e.churn, cap, e.stop);
    Chain(c.queue[w.next..] + w.postponed + e.arrivals, if w.limited then c.toConsume + e.churn - w.processed else 0)
  }

  /** No deposit appears from nowhere, and those of exited validators and the arrivals are still queued. */
  lemma ExitedStayQueued(c: Chain, cap: nat, e: Epoch)
    ensures forall d :: d in Transition(c, cap, e).queue ==> d in c.queue || d in e.arrivals
    ensures forall d :: d in e.arrivals || (d in c.queue && e.kindOf(d.validator).Exited?) ==> d in Transition(c, cap, e).queue
  {
    var w := Walk(c.queue, e.kindOf, 0, 0, [], c.toConsume + e.churn, cap, e.stop);
    WalkInRange(c.queue, e.kindOf, 0, 0, [], c.toConsume + e.churn, cap, e.stop);
    WalkPostpones(c.queue, e.kindOf, 0, 0, [], c.toConsume + e.churn, cap, e.stop);
    forall d | d in c.queue && e.kindOf(d.validator).Exited?
      ensures d in Transition(c, cap, e).queue
    {
      var i :| 0 <= i < |c.queue| && c.queue[i] == d;
      if i >= w.next {
        assert c.queue[w.next..][i - w.next] == d;
      }
    }
  }

  lemma {:induction false} WalkPostpones(queue: seq<Deposit>, kindOf: Kinds, next: nat, processed: nat,
                                         postponed: seq<Deposit>, available: nat, cap: nat, stop: nat)
    requires next <= |queue|
    ensures var w := Walk(queue, kindOf, next, processed, postponed, available, cap, stop);
      && (forall d :: d in postponed ==> d in w.postponed)
      && forall i :: next <= i < w.next && i < |queue| && kindOf(queue[i].validator).Exited? ==> queue[i] in w.postponed
    decreases |queue| - next
  {
    if next < |queue| && next < stop && next < cap {
      match kindOf(queue[next].validator)
      case Withdrawn => WalkPostpones(queue, kindOf, next + 1, processed, postponed, available, cap, stop);
      case Exited =>
        assert queue[next] in postponed + [queue[next]];
        WalkPostpones(queue, kindOf, next + 1, processed, postponed + [queue[next]], available, cap, stop);
      case Active =>
        if processed + queue[next].amount <= available {
          WalkPostpones(queue, kindOf, next + 1, processed + queue[next].amount, postponed, available, cap, stop);
        }
    }
  }

  function Run(c: Chain, cap: nat, epochs: seq<Epoch>): Chain
    decreases |epochs|
  {
    if epochs == [] then c else Run(Transition(c, cap, epochs[0]), cap, epochs[1..])
  }

  ghost predicate StillQueued(c: Chain)
  {
    exists d :: d in c.queue && d.ours
  }

  /** Epochs the bound is meant for: no more churn than assumed, and nobody else's deposit is taken for ours. */
  ghost predicate Allowed(epochs: seq<Epoch>, churn: nat)
  {
    forall e :: e in epochs ==> e.churn <= churn && forall d :: d in e.arrivals ==> !d.ours
  }

  /** A validator exits and then becomes withdrawable, and never comes back. */
  predicate Advances(before: Kind, after: Kind)
  {
    match before
    case Active => true
    case Exited => !after.Active?
    case Withdrawn => after.Withdrawn?
  }

  /** From epoch to epoch the validators only advance, and only those in leaving change at all. */
  ghost predicate InStep(kinds: Kinds, leaving: set<nat>, epochs: seq<Epoch>)
    decreases |epochs|
  {
    epochs == [] ||
    (MayFollow(kinds, leaving, epochs[0].kindOf) && InStep(epochs[0].kindOf, leaving, epochs[1..]))
  }

  ghost predicate MayFollow(kinds: Kinds, leaving: set<nat>, kinds': Kinds)
  {
    forall v: nat {:trigger kinds'(v)} :: if v in leaving then Advances(kinds(v), kinds'(v)) else kinds'(v) == kinds(v)
  }

  // ----- the simulation -----

  function Sum(s: seq<nat>, k: nat): nat
    requires k <= |s|
  {
    if k == 0 then 0 else Sum(s, k - 1) + s[k - 1]
  }

  datatype SimWalked = SimWalked(head: nat, processed: nat, limited: bool)

  function SimWalk(sim: seq<nat>, head: nat, count: nat, processed: nat, available: nat, cap: nat): SimWalked
    requires head <= |sim|
    decreases |sim| - head
  {
    if head == |sim| || count >= cap then SimWalked(head, processed, false)
    else if processed + sim[head] > available then SimWalked(head, processed, true)
    else SimWalk(sim, head + 1, count + 1, processed + sim[head], available, cap)
  }

  /** The last entry of sim is still queued after `transitions` epoch boundaries. */
  predicate SimSurvives(sim: seq<nat>, head: nat, toConsume: nat, churn: nat, cap: nat, transitions: nat)
    requires head < |sim|
    decreases transitions
  {
    if transitions == 0 then true
    else
      var w := SimWalk(sim, head, 0, 0, toConsume + churn, cap);
      SimWalkFacts(sim, head, 0, 0, toConsume + churn, cap);
      w.head < |sim| &&
      SimSurvives(sim, w.head, if w.limited then toConsume + churn - w.processed else 0, churn, cap, transitions - 1)
  }

  lemma {:induction false} SimWalkFacts(sim: seq<nat>, head: nat, count: nat, processed: nat, available: nat, cap: nat)
    requires head <= |sim| && processed <= available
    ensures var w := SimWalk(sim, head, count, processed, available, cap);
      && head <= w.head <= |sim|
      && w.processed <= available
      && w.processed == processed + Sum(sim, w.head) - Sum(sim, head)
      && (w.limited ==> w.head < |sim| && w.processed + sim[w.head] > available)
      && (!w.limited && w.head < |sim| ==> count + (w.head - head) >= cap)
    decreases |sim| - head
  {
    if head < |sim| && count < cap && processed + sim[head] <= available {
      SimWalkFacts(sim, head + 1, count + 1, processed + sim[head], available, cap);
    }
  }

  // ----- what one epoch and several drain -----

  /** The entries up to `next` fit into the budget and the cap, and one more does not. */
  ghost predicate DrainsTo(sim: seq<nat>, head: nat, next: nat, available: nat, cap: nat)
  {
    && head <= next <= |sim| && next - head <= cap && Sum(sim, next) - Sum(sim, head) <= available
    && (next == |sim| || next - head == cap || Sum(sim, next + 1) - Sum(sim, head) > available)
  }

  lemma {:induction false} WalkDrainsTo(sim: seq<nat>, head: nat, at: nat, next: nat, paid: nat, available: nat, cap: nat)
    requires DrainsTo(sim, head, next, available, cap) && head <= at <= next && paid == Sum(sim, at) - Sum(sim, head)
    ensures var w := SimWalk(sim, at, at - head, paid, available, cap);
      w.head == next && w.processed == Sum(sim, next) - Sum(sim, head) && (w.limited <==> next < |sim| && next - head < cap)
    decreases next - at
  {
    if at < next {
      SumMonotone(sim, at + 1, next);
      WalkDrainsTo(sim, head, at + 1, next, paid + sim[at], available, cap);
    }
  }

  /** An epoch drains what fits. Unused budget goes to the next epoch where the budget stopped it, not where the cap did. */
  lemma EpochDrainsWhatFits(sim: seq<nat>, head: nat, next: nat, toConsume: nat, churn: nat, cap: nat, transitions: nat)
    requires head < |sim| && DrainsTo(sim, head, next, toConsume + churn, cap)
    ensures SimSurvives(sim, head, toConsume, churn, cap, transitions + 1) <==>
      next < |sim| && SimSurvives(sim, next, Carried(sim, head, next, toConsume + churn, cap), churn, cap, transitions)
  {
    WalkDrainsTo(sim, head, head, next, 0, toConsume + churn, cap);
  }

  function Carried(sim: seq<nat>, head: nat, next: nat, available: nat, cap: nat): (carried: nat)
    requires DrainsTo(sim, head, next, available, cap)
    ensures next - head == cap ==> carried == 0
    ensures next - head < cap ==> carried + Sum(sim, next) - Sum(sim, head) == available
  {
    if next - head == cap then 0 else available - (Sum(sim, next) - Sum(sim, head))
  }

  /** Where the cap never matters, the deposit survives exactly when the queue outweighs the budget of all epochs. */
  lemma {:induction false} SurvivesIffOutweighs(sim: seq<nat>, head: nat, toConsume: nat, churn: nat, cap: nat, transitions: nat)
    requires head < |sim| <= head + cap
    ensures SimSurvives(sim, head, toConsume, churn, cap, transitions) <==>
      transitions == 0 || Sum(sim, |sim|) - Sum(sim, head) > toConsume + transitions * churn
    decreases transitions
  {
    if transitions > 0 {
      var w := SimWalk(sim, head, 0, 0, toConsume + churn, cap);
      SimWalkFacts(sim, head, 0, 0, toConsume + churn, cap);
      OneLess(transitions, churn);
      if w.head < |sim| {
        SumMonotone(sim, w.head + 1, |sim|);
        SurvivesIffOutweighs(sim, w.head, toConsume + churn - w.processed, churn, cap, transitions - 1);
      }
    }
  }

  lemma OneLess(transitions: nat, churn: nat)
    requires transitions > 0
    ensures transitions * churn == churn + (transitions - 1) * churn
    ensures (transitions - 1) * churn >= 0
  {
  }

  lemma {:induction false} SumMonotone(s: seq<nat>, i: nat, j: nat)
    requires i <= j <= |s|
    ensures Sum(s, i) <= Sum(s, j)
    decreases j
  {
    if i < j {
      SumMonotone(s, i, j - 1);
    }
  }

  /** The inner loop of simulateDepositSurvives: one epoch's entries, in 64-bit arithmetic. */
  method DrainEpoch(sim: seq<nat>, start: nat, available: nat, maxPerEpoch: nat)
    returns (head: nat, processed: nat, churnLimited: bool)
    requires start < |sim| && Sum(sim, |sim|) < TWO_TO_64
    ensures SimWalked(head, processed, churnLimited) == SimWalk(sim, start, 0, 0, available, maxPerEpoch)
    ensures start <= head <= |sim| && processed <= available
    ensures churnLimited ==> head < |sim| && available - processed <= sim[head]
  {
    head, processed, churnLimited := start, 0, false;
    var count: nat := 0;
    while head < |sim|
      invariant start <= head <= |sim| && !churnLimited
      invariant processed == Sum(sim, head) - Sum(sim, start) && processed <= available
      invariant SimWalk(sim, start, 0, 0, available, maxPerEpoch)
        == SimWalk(sim, head, count, processed, available, maxPerEpoch)
    {
      if count >= maxPerEpoch {
        return;
      }
      var amount := sim[head];
      SumMonotone(sim, head + 1, |sim|);
      if (processed + amount) % TWO_TO_64 > available {
        churnLimited := true;
        return;
      }
      processed := (processed + amount) % TWO_TO_64;
      count := count + 1;
      head := head + 1;
    }
  }

  /** simulateDepositSurvives; our deposit is the last entry, so it is drained when the head passes the end. */
  method SimulateDepositSurvives(queue: seq<nat>, ourAmount: nat, depositBalanceToConsume: nat, churnLimit: nat,
                                 maxPerEpoch: nat, transitions: nat)
    returns (survives: bool)
    requires Sum(queue, |queue|) + ourAmount + depositBalanceToConsume + churnLimit < TWO_TO_64
    ensures survives <==>
      maxPerEpoch > 0 &&
      SimSurvives(queue + [ourAmount], 0, depositBalanceToConsume, churnLimit, maxPerEpoch, transitions)
  {
    if maxPerEpoch == 0 {
      return false;
    }
    var ourIdx := |queue|;
    var sim := queue + [ourAmount];
    SumOfPrefix(queue, [ourAmount], |queue|);
    ghost var total := Sum(sim, |sim|);
    assert total == Sum(queue, |queue|) + ourAmount;
    var dbtc: nat := depositBalanceToConsume;
    var head: nat := 0;
    for t := 0 to transitions
      invariant head <= ourIdx
      invariant dbtc <= depositBalanceToConsume + total
      invariant SimSurvives(sim, 0, depositBalanceToConsume, churnLimit, maxPerEpoch, transitions)
        == SimSurvives(sim, head, dbtc, churnLimit, maxPerEpoch, transitions - t)
    {
      var available := (dbtc + churnLimit) % TWO_TO_64;
      var processed, churnLimited;
      head, processed, churnLimited := DrainEpoch(sim, head, available, maxPerEpoch);
      if head > ourIdx {
        return false;
      }
      if churnLimited {
        SumMonotone(sim, head + 1, |sim|);
        dbtc := available - processed;
      } else {
        dbtc := 0;
      }
    }
    return head <= ourIdx;
  }

  lemma {:induction false} SumOfPrefix(a: seq<nat>, b: seq<nat>, k: nat)
    requires k <= |a|
    ensures Sum(a + b, k) == Sum(a, k)
  {
    if k > 0 {
      SumOfPrefix(a, b, k - 1);
    }
  }

  // ----- the simulation bounds the process -----

  /** What an entry takes from the churn budget: only an active validator's takes its amount. */
  function Weight(amount: nat, kind: Kind): nat
  {
    if kind.Active? then amount else 0
  }

  /**
   The front of the queue weighs what is left of sim once `head` entries have drained; sim ends in our deposit. The
   validators of the front are among `staying`, and `kinds` is what they are.
   */
  ghost predicate Aligned(c: Chain, kinds: Kinds, staying: set<nat>, sim: seq<nat>, head: nat)
  {
    && head < |sim| <= head + |c.queue|
    && (forall k :: 0 <= k < |sim| - head ==> c.queue[k].validator in staying)
    && (forall k :: 0 <= k < |sim| - head ==> Weight(c.queue[k].amount, kinds(c.queue[k].validator)) == sim[head + k])
    && c.queue[|sim| - head - 1].ours && kinds(c.queue[|sim| - head - 1].validator).Active?
  }

  /** These validators are all along what they were. */
  ghost predicate Stay(staying: set<nat>, kinds: Kinds, kindOf: Kinds)
  {
    forall v :: v in staying ==> kindOf(v) == kinds(v)
  }

  ghost predicate AllStay(staying: set<nat>, kinds: Kinds, epochs: seq<Epoch>)
  {
    forall i :: 0 <= i < |epochs| ==> Stay(staying, kinds, epochs[i].kindOf)
  }

  lemma {:induction false} StayInStep(staying: set<nat>, kinds: Kinds, kinds': Kinds, leaving: set<nat>,
                                      epochs: seq<Epoch>)
    requires staying !! leaving && Stay(staying, kinds, kinds') && InStep(kinds', leaving, epochs)
    ensures AllStay(staying, kinds, epochs)
    decreases |epochs|
  {
    if epochs != [] {
      var next := epochs[0].kindOf;
      assert Stay(staying, kinds, next) by {
        assert forall v :: v in staying ==> next(v) == kinds'(v);
      }
      StayInStep(staying, kinds, next, leaving, epochs[1..]);
      assert forall i :: 0 < i < |epochs| ==> epochs[i] == epochs[1..][i - 1];
    }
  }

  /** The walk stops at `bound` if the cap or the budget does not reach beyond it. */
  lemma {:induction false} WalkStopsAt(queue: seq<Deposit>, kindOf: Kinds, sim: seq<nat>, head: nat, next: nat,
                                       bound: nat, processed: nat, postponed: seq<Deposit>, available: nat, cap: nat,
                                       stop: nat)
    returns (w: Walked)
    requires next <= bound < |queue| && head + bound < |sim|
    requires forall k :: next <= k <= bound ==> Weight(queue[k].amount, kindOf(queue[k].validator)) == sim[head + k]
    requires cap <= bound || processed + Sum(sim, head + bound + 1) - Sum(sim, head + next) > available
    requires processed <= available
    ensures w == Walk(queue, kindOf, next, processed, postponed, available, cap, stop)
    ensures next <= w.next <= bound && w.processed <= available
    ensures w.processed == processed + Sum(sim, head + w.next) - Sum(sim, head + next)
    ensures w.limited ==> w.next < cap && w.processed + sim[head + w.next] > available
    decreases bound - next
  {
    w := Walk(queue, kindOf, next, processed, postponed, available, cap, stop);
    var kind := kindOf(queue[next].validator);
    var weight := Weight(queue[next].amount, kind);
    if next < stop && next < cap && processed + weight <= available {
      assert next < bound;
      var postponed' := if kind.Exited? then postponed + [queue[next]] else postponed;
      w := WalkStopsAt(queue, kindOf, sim, head, next + 1, bound, processed + weight, postponed', available, cap, stop);
    }
  }

  /** One epoch of the process, which drains no more than `bound` entries. */
  lemma EpochDrains(c: Chain, kinds: Kinds, staying: set<nat>, sim: seq<nat>, head: nat, bound: nat, cap: nat, e: Epoch)
    returns (next: nat, limited: bool)
    requires Aligned(c, kinds, staying, sim, head) && head + bound < |sim| && Stay(staying, kinds, e.kindOf)
    requires cap <= bound || Sum(sim, head + bound + 1) - Sum(sim, head) > c.toConsume + e.churn
    ensures next <= bound && Aligned(Transition(c, cap, e), kinds, staying, sim, head + next)
    ensures Transition(c, cap, e).toConsume ==
      if limited then c.toConsume + e.churn - (Sum(sim, head + next) - Sum(sim, head)) else 0
    ensures limited ==> next < cap && Sum(sim, head + next + 1) - Sum(sim, head) > c.toConsume + e.churn
  {
    var w := WalkStopsAt(c.queue, e.kindOf, sim, head, 0, bound, 0, [], c.toConsume + e.churn, cap, e.stop);
    WalkInRange(c.queue, e.kindOf, 0, 0, [], c.toConsume + e.churn, cap, e.stop);
    next, limited := w.next, w.limited;
    AlignedAfter(c, kinds, staying, sim, head, next, Transition(c, cap, e).queue, Transition(c, cap, e).toConsume);
  }

  /** With `next` entries gone from the front, and others added behind, the rest is aligned. */
  lemma AlignedAfter(c: Chain, kinds: Kinds, staying: set<nat>, sim: seq<nat>, head: nat, next: nat,
                     queue: seq<Deposit>, toConsume: nat)
    requires Aligned(c, kinds, staying, sim, head) && head + next < |sim| && next <= |c.queue|
    requires |c.queue[next..]| <= |queue| && queue[..|c.queue[next..]|] == c.queue[next..]
    ensures Aligned(c.(queue := queue, toConsume := toConsume), kinds, staying, sim, head + next)
  {
    forall k | 0 <= k < |sim| - (head + next)
      ensures queue[k] == c.queue[next + k]
    {
      assert queue[k] == queue[..|c.queue[next..]|][k];
    }
  }

  /**
   One epoch keeps the process behind the simulation: no further down the queue, and with no more than the
   simulation's drained sum plus carried budget.
   */
  lemma EpochStaysBehind(c: Chain, kinds: Kinds, staying: set<nat>, sim: seq<nat>, head: nat, simHead: nat,
                         simConsume: nat, churn: nat, cap: nat, e: Epoch) returns (head': nat)
    requires cap > 0 && Aligned(c, kinds, staying, sim, head) && head <= simHead < |sim|
    requires Sum(sim, head) + c.toConsume <= Sum(sim, simHead) + simConsume
    requires e.churn <= churn && Stay(staying, kinds, e.kindOf)
    requires SimWalk(sim, simHead, 0, 0, simConsume + churn, cap).head < |sim|
    ensures var w := SimWalk(sim, simHead, 0, 0, simConsume + churn, cap);
      && w.processed <= simConsume + churn
      && var simConsume' := if w.limited then simConsume + churn - w.processed else 0;
      && head' <= w.head
      && Aligned(Transition(c, cap, e), kinds, staying, sim, head')
      && Sum(sim, head') + Transition(c, cap, e).toConsume <= Sum(sim, w.head) + simConsume'
  {
    var sw := SimWalk(sim, simHead, 0, 0, simConsume + churn, cap);
    SimWalkFacts(sim, simHead, 0, 0, simConsume + churn, cap);
    var next, limited := EpochDrains(c, kinds, staying, sim, head, sw.head - head, cap, e);
    head' := head + next;
    if limited && !sw.limited {
      SumMonotone(sim, head' + 1, sw.head);
    } else {
      SumMonotone(sim, head', sw.head);
    }
  }

  lemma {:induction false} NeverDrained(c: Chain, kinds: Kinds, staying: set<nat>, sim: seq<nat>, head: nat,
                                        simHead: nat, simConsume: nat, churn: nat, cap: nat, epochs: seq<Epoch>)
    requires cap > 0 && Aligned(c, kinds, staying, sim, head) && head <= simHead < |sim|
    requires Sum(sim, head) + c.toConsume <= Sum(sim, simHead) + simConsume
    requires Allowed(epochs, churn) && AllStay(staying, kinds, epochs)
    requires SimSurvives(sim, simHead, simConsume, churn, cap, |epochs|)
    ensures StillQueued(Run(c, cap, epochs))
    decreases |epochs|
  {
    if epochs == [] {
      assert c.queue[|sim| - head - 1] in c.queue;
    } else {
      var e := epochs[0];
      assert e in epochs;
      var head' := EpochStaysBehind(c, kinds, staying, sim, head, simHead, simConsume, churn, cap, e);
      var w := SimWalk(sim, simHead, 0, 0, simConsume + churn, cap);
      NeverDrained(Transition(c, cap, e), kinds, staying, sim, head', w.head,
                   if w.limited then simConsume + churn - w.processed else 0, churn, cap, epochs[1..]);
    }
  }

  // ----- and is itself one of the runs it bounds -----

  /** Nothing else in the queue is ours. */
  ghost predicate OnlyOurs(c: Chain, sim: seq<nat>, head: nat)
  {
    forall k :: 0 <= k < |c.queue| && c.queue[k].ours ==> k == |sim| - head - 1
  }

  lemma {:induction false} WalkFollows(queue: seq<Deposit>, kindOf: Kinds, sim: seq<nat>, head: nat, next: nat,
                                       processed: nat, postponed: seq<Deposit>, available: nat, cap: nat, stop: nat)
    requires head + next <= |sim| <= head + |queue| && |queue| <= stop && processed <= available
    requires forall k :: next <= k < |sim| - head ==> Weight(queue[k].amount, kindOf(queue[k].validator)) == sim[head + k]
    ensures var w := Walk(queue, kindOf, next, processed, postponed, available, cap, stop);
      var sw := SimWalk(sim, head + next, next, processed, available, cap);
      && (sw.head < |sim| ==> sw == SimWalked(head + w.next, w.processed, w.limited))
      && (sw.head >= |sim| ==> head + w.next >= |sim|)
    decreases |sim| - head - next
  {
    WalkInRange(queue, kindOf, next, processed, postponed, available, cap, stop);
    if head + next < |sim| && next < cap {
      var kind := kindOf(queue[next].validator);
      var weight := Weight(queue[next].amount, kind);
      if processed + weight <= available {
        var postponed' := if kind.Exited? then postponed + [queue[next]] else postponed;
        WalkFollows(queue, kindOf, sim, head, next + 1, processed + weight, postponed', available, cap, stop);
      }
    }
  }

  /** Everything is finalised, nobody else deposits, and the validators are the same all along. */
  ghost function FullEpoch(kinds: Kinds, churn: nat, stop: nat): Epoch
  {
    Epoch(churn, stop, [], kinds)
  }

  ghost function FullEpochs(kinds: Kinds, churn: nat, stop: nat, transitions: nat): seq<Epoch>
  {
    if transitions == 0 then [] else [FullEpoch(kinds, churn, stop)] + FullEpochs(kinds, churn, stop, transitions - 1)
  }

  lemma {:induction false} FullEpochsShape(kinds: Kinds, churn: nat, stop: nat, transitions: nat, leaving: set<nat>)
    ensures |FullEpochs(kinds, churn, stop, transitions)| == transitions
    ensures forall i :: 0 <= i < transitions ==>
      FullEpochs(kinds, churn, stop, transitions)[i] == FullEpoch(kinds, churn, stop)
    ensures Allowed(FullEpochs(kinds, churn, stop, transitions), churn)
    ensures InStep(kinds, leaving, FullEpochs(kinds, churn, stop, transitions))
  {
    if transitions > 0 {
      FullEpochsShape(kinds, churn, stop, transitions - 1, leaving);
      assert FullEpochs(kinds, churn, stop, transitions)[1..] == FullEpochs(kinds, churn, stop, transitions - 1);
      assert MayFollow(kinds, leaving, kinds);
    }
  }

  ghost predicate NoneOurs(queue: seq<Deposit>)
  {
    forall k :: 0 <= k < |queue| ==> !queue[k].ours
  }

  lemma {:induction false} GoneStaysGone(c: Chain, kinds: Kinds, churn: nat, cap: nat, stop: nat, transitions: nat)
    requires NoneOurs(c.queue)
    ensures NoneOurs(Run(c, cap, FullEpochs(kinds, churn, stop, transitions)).queue)
    decreases transitions
  {
    if transitions > 0 {
      var e, rest := FullEpoch(kinds, churn, stop), FullEpochs(kinds, churn, stop, transitions - 1);
      assert FullEpochs(kinds, churn, stop, transitions)[1..] == rest;
      WalkInRange(c.queue, kinds, 0, 0, [], c.toConsume + churn, cap, stop);
      GoneStaysGone(Transition(c, cap, e), kinds, churn, cap, stop, transitions - 1);
    }
  }

  /** An epoch without early stops drains what the simulation drains. */
  lemma FullTransition(c: Chain, kinds: Kinds, staying: set<nat>, sim: seq<nat>, head: nat, churn: nat, cap: nat,
                       stop: nat)
    requires Aligned(c, kinds, staying, sim, head) && OnlyOurs(c, sim, head) && |c.queue| <= stop
    ensures var w := SimWalk(sim, head, 0, 0, c.toConsume + churn, cap);
      var next := Transition(c, cap, FullEpoch(kinds, churn, stop));
      && w.head <= |sim| && w.processed <= c.toConsume + churn
      && (w.head == |sim| ==> NoneOurs(next.queue))
      && (w.head < |sim| ==>
            && Aligned(next, kinds, staying, sim, w.head) && OnlyOurs(next, sim, w.head) && |next.queue| <= stop
            && next.toConsume == if w.limited then c.toConsume + churn - w.processed else 0)
  {
    var available := c.toConsume + churn;
    WalkFollows(c.queue, kinds, sim, head, 0, 0, [], available, cap, stop);
    SimWalkFacts(sim, head, 0, 0, available, cap);
    WalkInRange(c.queue, kinds, 0, 0, [], available, cap, stop);
    var w := Walk(c.queue, kinds, 0, 0, [], available, cap, stop);
    PostponedNotOurs(c, kinds, staying, sim, head, w);
    var next := Transition(c, cap, FullEpoch(kinds, churn, stop));
    assert next.queue == c.queue[w.next..] + w.postponed;
    if head + w.next < |sim| {
      AlignedAfter(c, kinds, staying, sim, head, w.next, next.queue, next.toConsume);
    }
    OursAfter(c, sim, head, w.next, w.postponed, next.queue, next.toConsume);
  }

  /** What is ours stays at its distance from the end of sim, or is gone. */
  lemma OursAfter(c: Chain, sim: seq<nat>, head: nat, next: nat, postponed: seq<Deposit>, queue: seq<Deposit>,
                  toConsume: nat)
    requires OnlyOurs(c, sim, head) && next <= |c.queue| && NoneOurs(postponed)
    requires queue == c.queue[next..] + postponed
    ensures OnlyOurs(c.(queue := queue, toConsume := toConsume), sim, head + next)
    ensures head + next >= |sim| ==> NoneOurs(queue)
  {
    forall k | |c.queue| - next <= k < |queue|
      ensures !queue[k].ours
    {
      assert queue[k] == postponed[k - (|c.queue| - next)];
    }
    assert forall k :: 0 <= k < |c.queue| - next ==> queue[k] == c.queue[next + k];
  }

  lemma PostponedNotOurs(c: Chain, kinds: Kinds, staying: set<nat>, sim: seq<nat>, head: nat, w: Walked)
    requires Aligned(c, kinds, staying, sim, head) && OnlyOurs(c, sim, head)
    requires forall d :: d in w.postponed ==> d in c.queue && kinds(d.validator).Exited?
    ensures NoneOurs(w.postponed)
  {
    forall k | 0 <= k < |w.postponed|
      ensures !w.postponed[k].ours
    {
      assert w.postponed[k] in w.postponed;
    }
  }

  lemma {:induction false} DrainedInSomeRun(c: Chain, kinds: Kinds, staying: set<nat>, sim: seq<nat>, head: nat,
                                            churn: nat, cap: nat, stop: nat, transitions: nat)
    requires Aligned(c, kinds, staying, sim, head) && OnlyOurs(c, sim, head) && |c.queue| <= stop
    requires !SimSurvives(sim, head, c.toConsume, churn, cap, transitions)
    ensures !StillQueued(Run(c, cap, FullEpochs(kinds, churn, stop, transitions)))
    decreases transitions
  {
    var e, rest := FullEpoch(kinds, churn, stop), FullEpochs(kinds, churn, stop, transitions - 1);
    assert FullEpochs(kinds, churn, stop, transitions) == [e] + rest;
    FullTransition(c, kinds, staying, sim, head, churn, cap, stop);
    var head' := SimWalk(sim, head, 0, 0, c.toConsume + churn, cap).head;
    var c' := Transition(c, cap, e);
    assert Run(c, cap, FullEpochs(kinds, churn, stop, transitions)) == Run(c', cap, rest);
    if head' == |sim| {
      GoneStaysGone(c', kinds, churn, cap, stop, transitions - 1);
    } else {
      DrainedInSomeRun(c', kinds, staying, sim, head', churn, cap, stop, transitions - 1);
    }
  }

  /** The validators behind the queued deposits, one after the other, and the one behind ours. */
  datatype Owners = Owners(queued: seq<nat>, us: nat)

  ghost function All(owners: Owners): set<nat>
  {
    (set v | v in owners.queued) + {owners.us}
  }

  /** A queue of these amounts with our own deposit behind it. */
  ghost function QueueOf(amounts: seq<nat>, owners: Owners, ourAmount: nat): seq<Deposit>
    requires |amounts| == |owners.queued|
  {
    seq(|amounts|, k requires 0 <= k < |amounts| => Deposit(owners.queued[k], amounts[k], false))
    + [Deposit(owners.us, ourAmount, true)]
  }

  /** What the entries of such a queue take from the budget: the amounts, with 0 for exited and withdrawn validators. */
  function Weights(amounts: seq<nat>, owners: Owners, kinds: Kinds): (weights: seq<nat>)
    requires |amounts| == |owners.queued|
  {
    seq<nat>(|amounts|, k requires 0 <= k < |amounts| => Weight(amounts[k], kinds(owners.queued[k])))
  }

  lemma QueueIsAligned(amounts: seq<nat>, owners: Owners, kinds: Kinds, ourAmount: nat, toConsume: nat)
    requires |amounts| == |owners.queued| && kinds(owners.us).Active?
    ensures var c, sim := Chain(QueueOf(amounts, owners, ourAmount), toConsume), Weights(amounts, owners, kinds) + [ourAmount];
      Aligned(c, kinds, All(owners), sim, 0) && OnlyOurs(c, sim, 0) && |c.queue| == |sim|
  {
    forall k | 0 <= k < |amounts|
      ensures owners.queued[k] in All(owners)
    {
    }
  }

  /** The epochs of an allowed run from validators of these kinds, of which those in leaving may change. */
  ghost predicate IsRun(kinds: Kinds, leaving: set<nat>, churn: nat, transitions: nat, epochs: seq<Epoch>)
  {
    |epochs| == transitions && Allowed(epochs, churn) && InStep(kinds, leaving, epochs)
  }

  /** Our deposit is still queued after every allowed run of that many epochs. */
  ghost predicate EveryRunKeeps(amounts: seq<nat>, owners: Owners, kinds: Kinds, leaving: set<nat>, ourAmount: nat,
                                toConsume: nat, churn: nat, cap: nat, transitions: nat)
    requires |amounts| == |owners.queued|
  {
    forall epochs :: IsRun(kinds, leaving, churn, transitions, epochs) ==>
      StillQueued(Run(Chain(QueueOf(amounts, owners, ourAmount), toConsume), cap, epochs))
  }

  /** A no of the simulation on the weights: our deposit is drained in a run in which no validator changes. */
  lemma DrainedWithSameKinds(amounts: seq<nat>, owners: Owners, kinds: Kinds, leaving: set<nat>, ourAmount: nat,
                             toConsume: nat, churn: nat, cap: nat, transitions: nat) returns (epochs: seq<Epoch>)
    requires |amounts| == |owners.queued| && kinds(owners.us).Active?
    requires !SimSurvives(Weights(amounts, owners, kinds) + [ourAmount], 0, toConsume, churn, cap, transitions)
    ensures epochs == FullEpochs(kinds, churn, |amounts| + 1, transitions) && IsRun(kinds, leaving, churn, transitions, epochs)
    ensures !StillQueued(Run(Chain(QueueOf(amounts, owners, ourAmount), toConsume), cap, epochs))
  {
    var sim, c := Weights(amounts, owners, kinds) + [ourAmount], Chain(QueueOf(amounts, owners, ourAmount), toConsume);
    QueueIsAligned(amounts, owners, kinds, ourAmount, toConsume);
    epochs := FullEpochs(kinds, churn, |sim|, transitions);
    FullEpochsShape(kinds, churn, |sim|, transitions, leaving);
    DrainedInSomeRun(c, kinds, All(owners), sim, 0, churn, cap, |sim|, transitions);
  }

  /**
   For every queue of which no validator changes before the fork: our deposit outlasts every allowed run exactly when the
   simulation says yes for the amounts that use churn, those of exited and withdrawn validators set to 0.
   */
  lemma SurvivesIffEveryRunKeeps(amounts: seq<nat>, owners: Owners, kinds: Kinds, leaving: set<nat>, ourAmount: nat,
                                 toConsume: nat, churn: nat, cap: nat, transitions: nat)
    requires |amounts| == |owners.queued| && cap > 0 && kinds(owners.us).Active? && All(owners) !! leaving
    ensures SimSurvives(Weights(amounts, owners, kinds) + [ourAmount], 0, toConsume, churn, cap, transitions) <==>
      EveryRunKeeps(amounts, owners, kinds, leaving, ourAmount, toConsume, churn, cap, transitions)
  {
    var sim, c := Weights(amounts, owners, kinds) + [ourAmount], Chain(QueueOf(amounts, owners, ourAmount), toConsume);
    QueueIsAligned(amounts, owners, kinds, ourAmount, toConsume);
    if SimSurvives(sim, 0, toConsume, churn, cap, transitions) {
      forall epochs | IsRun(kinds, leaving, churn, transitions, epochs)
        ensures StillQueued(Run(c, cap, epochs))
      {
        StayInStep(All(owners), kinds, kinds, leaving, epochs);
        NeverDrained(c, kinds, All(owners), sim, 0, 0, toConsume, churn, cap, epochs);
      }
    } else {
      var epochs := DrainedWithSameKinds(amounts, owners, kinds, leaving, ourAmount, toConsume, churn, cap, transitions);
    }
  }

  // ----- where the bound stops holding -----

  ghost predicate AllActive(queued: seq<nat>, kinds: Kinds)
  {
    forall k :: 0 <= k < |queued| ==> kinds(queued[k]).Active?
  }

  lemma ActiveWeights(amounts: seq<nat>, owners: Owners, kinds: Kinds)
    requires |amounts| == |owners.queued| && AllActive(owners.queued, kinds)
    ensures Weights(amounts, owners, kinds) == amounts
  {
  }

  /** A yes of the simulation, which knows the amounts only, can be relied on for this queue. */
  ghost predicate Reliable(amounts: seq<nat>, owners: Owners, kinds: Kinds, leaving: set<nat>, ourAmount: nat,
                           toConsume: nat, churn: nat, cap: nat, transitions: nat)
    requires |amounts| == |owners.queued|
  {
    SimSurvives(amounts + [ourAmount], 0, toConsume, churn, cap, transitions) ==>
      EveryRunKeeps(amounts, owners, kinds, leaving, ourAmount, toConsume, churn, cap, transitions)
  }

  /**
   For one queue of which no validator changes before the fork that can be computed: the yes has to stand when the
   churn-free amounts are set to 0.
   */
  lemma ReliableIffWeighted(amounts: seq<nat>, owners: Owners, kinds: Kinds, leaving: set<nat>, ourAmount: nat,
                            toConsume: nat, churn: nat, cap: nat, transitions: nat)
    requires |amounts| == |owners.queued| && cap > 0 && kinds(owners.us).Active? && All(owners) !! leaving
    ensures Reliable(amounts, owners, kinds, leaving, ourAmount, toConsume, churn, cap, transitions) <==>
      (SimSurvives(amounts + [ourAmount], 0, toConsume, churn, cap, transitions) ==>
         SimSurvives(Weights(amounts, owners, kinds) + [ourAmount], 0, toConsume, churn, cap, transitions))
  {
    SurvivesIffEveryRunKeeps(amounts, owners, kinds, leaving, ourAmount, toConsume, churn, cap, transitions);
  }

  /** For queues of these validators, a yes of the simulation can always be relied on. */
  ghost predicate SoundFor(owners: Owners, kinds: Kinds, leaving: set<nat>)
  {
    forall amounts: seq<nat>, ourAmount: nat, toConsume: nat, churn: nat, cap: nat, transitions: nat ::
      |amounts| == |owners.queued| && cap > 0 ==>
        Reliable(amounts, owners, kinds, leaving, ourAmount, toConsume, churn, cap, transitions)
  }

  /** The queued deposit is of an active validator that does not leave before the fork. */
  ghost predicate Keeps(v: nat, kinds: Kinds, leaving: set<nat>)
  {
    kinds(v).Active? && v !in leaving
  }

  /**
   The documented upper bound holds for all amounts, budgets and runs exactly when every queued deposit is of a validator
   that is active and stays so until the fork.
   */
  lemma SoundIffAllKeep(owners: Owners, kinds: Kinds, leaving: set<nat>)
    requires Keeps(owners.us, kinds, leaving)
    ensures SoundFor(owners, kinds, leaving) <==>
      forall k :: 0 <= k < |owners.queued| ==> Keeps(owners.queued[k], kinds, leaving)
  {
    if forall k :: 0 <= k < |owners.queued| ==> Keeps(owners.queued[k], kinds, leaving) {
      assert All(owners) !! leaving;
      forall amounts: seq<nat>, ourAmount: nat, toConsume: nat, churn: nat, cap: nat, transitions: nat |
        |amounts| == |owners.queued| && cap > 0
        ensures Reliable(amounts, owners, kinds, leaving, ourAmount, toConsume, churn, cap, transitions)
      {
        ActiveWeights(amounts, owners, kinds);
        ReliableIffWeighted(amounts, owners, kinds, leaving, ourAmount, toConsume, churn, cap, transitions);
      }
    } else {
      var k :| 0 <= k < |owners.queued| && !Keeps(owners.queued[k], kinds, leaving);
      var amounts, churn, epochs := UnsoundAt(owners, kinds, leaving, k, 1);
    }
  }

  /** An entry above the budget stops the simulation. */
  lemma {:induction false} BlockedAt(sim: seq<nat>, k: nat, head: nat, count: nat, processed: nat, available: nat,
                                     cap: nat)
    requires head <= k < |sim| && sim[k] > available
    ensures SimWalk(sim, head, count, processed, available, cap).head <= k
    decreases k - head
  {
    if head < k && count < cap && processed + sim[head] <= available {
      BlockedAt(sim, k, head + 1, count + 1, processed + sim[head], available, cap);
    }
  }

  /** A budget for the whole queue lets it through. */
  lemma {:induction false} AllPass(sim: seq<nat>, head: nat, count: nat, processed: nat, available: nat, cap: nat)
    requires head <= |sim| && count + |sim| - head <= cap
    requires processed + Sum(sim, |sim|) - Sum(sim, head) <= available
    ensures SimWalk(sim, head, count, processed, available, cap).head == |sim|
    decreases |sim| - head
  {
    if head < |sim| {
      SumMonotone(sim, head + 1, |sim|);
      AllPass(sim, head + 1, count + 1, processed + sim[head], available, cap);
    }
  }

  lemma {:induction false} SumOfOnes(sim: seq<nat>, k: nat)
    requires k <= |sim| && forall i :: 0 <= i < |sim| ==> sim[i] <= 1
    ensures Sum(sim, k) <= k
  {
    if k > 0 {
      SumOfOnes(sim, k - 1);
    }
  }

  /** Validator v has exited by now, if it had not before. */
  function Leave(kinds: Kinds, v: nat): Kinds
  {
    (u: nat) => if u == v && kinds(v).Active? then Exited else kinds(u)
  }

  /** Entry k is above any budget, everything else is 1. */
  function BigAt(n: nat, k: nat, big: nat): seq<nat>
  {
    seq(n, i => if i == k then big else 1)
  }

  /** With entry k free of churn everything else fits into the budget. */
  lemma RestPasses(owners: Owners, kinds: Kinds, k: nat, big: nat, churn: nat)
    requires k < |owners.queued| && !kinds(owners.queued[k]).Active? && churn == |owners.queued| + 1
    ensures !SimSurvives(Weights(BigAt(|owners.queued|, k, big), owners, kinds) + [1], 0, 0, churn, churn, 1)
  {
    var weights := Weights(BigAt(|owners.queued|, k, big), owners, kinds) + [1];
    SumOfOnes(weights, |weights|);
    AllPass(weights, 0, 0, 0, churn, churn);
  }

  /** The simulation never gets past an entry above all that it could save up. */
  lemma {:induction false} BlockedSurvives(sim: seq<nat>, k: nat, head: nat, toConsume: nat, churn: nat, cap: nat,
                                           transitions: nat)
    requires head <= k < |sim| && sim[k] > toConsume + transitions * churn
    ensures SimSurvives(sim, head, toConsume, churn, cap, transitions)
    decreases transitions
  {
    if transitions > 0 {
      assert transitions * churn == (transitions - 1) * churn + churn;
      BlockedAt(sim, k, head, 0, 0, toConsume + churn, cap);
      SimWalkFacts(sim, head, 0, 0, toConsume + churn, cap);
      var w := SimWalk(sim, head, 0, 0, toConsume + churn, cap);
      BlockedSurvives(sim, k, w.head, if w.limited then toConsume + churn - w.processed else 0, churn, cap,
                      transitions - 1);
    }
  }

  /** Epochs in which nothing is finalised and no validator changes, and then one more. */
  ghost function Waiting(kinds: Kinds, churn: nat, n: nat, last: Epoch): seq<Epoch>
  {
    if n == 0 then [last] else [Epoch(churn, 0, [], kinds)] + Waiting(kinds, churn, n - 1, last)
  }

  lemma {:induction false} WaitingIsRun(kinds: Kinds, leaving: set<nat>, churn: nat, n: nat, last: Epoch,
                                        queue: seq<Deposit>, cap: nat)
    requires last.churn <= churn && last.arrivals == [] && MayFollow(kinds, leaving, last.kindOf)
    ensures IsRun(kinds, leaving, churn, n + 1, Waiting(kinds, churn, n, last))
    ensures forall i :: 0 <= i < n ==> Waiting(kinds, churn, n, last)[i].kindOf == kinds
    ensures Run(Chain(queue, 0), cap, Waiting(kinds, churn, n, last)) == Transition(Chain(queue, 0), cap, last)
  {
    var epochs := Waiting(kinds, churn, n, last);
    if n == 0 {
      assert epochs[1..] == [];
    } else {
      WaitingIsRun(kinds, leaving, churn, n - 1, last, queue, cap);
      assert epochs[1..] == Waiting(kinds, churn, n - 1, last);
      assert MayFollow(kinds, leaving, kinds);
      assert Transition(Chain(queue, 0), cap, epochs[0]) == Chain(queue, 0);
    }
  }

  /** Until the last transition nothing is finalised; then entry k is free of churn and the whole queue passes. */
  lemma DrainedAtLast(owners: Owners, kinds: Kinds, leaving: set<nat>, k: nat, big: nat, churn: nat, transitions: nat)
    returns (epochs: seq<Epoch>)
    requires k < |owners.queued| && !Keeps(owners.queued[k], kinds, leaving) && Keeps(owners.us, kinds, leaving)
    requires transitions > 0 && churn == |owners.queued| + 1
    ensures IsRun(kinds, leaving, churn, transitions, epochs)
    ensures forall i :: 0 <= i < transitions - 1 ==> epochs[i].kindOf == kinds
    ensures !StillQueued(Run(Chain(QueueOf(BigAt(|owners.queued|, k, big), owners, 1), 0), churn, epochs))
  {
    var gone := Leave(kinds, owners.queued[k]);
    RestPasses(owners, gone, k, big, churn);
    var c := Chain(QueueOf(BigAt(|owners.queued|, k, big), owners, 1), 0);
    var once := DrainedWithSameKinds(BigAt(|owners.queued|, k, big), owners, gone, leaving, 1, 0, churn, churn, 1);
    var last := FullEpoch(gone, churn, churn);
    assert once == [last] by {
      assert FullEpochs(gone, churn, churn, 0) == [];
    }
    assert Run(c, churn, [last]) == Transition(c, churn, last);
    epochs := Waiting(kinds, churn, transitions - 1, last);
    WaitingIsRun(kinds, leaving, churn, transitions - 1, last, c.queue, churn);
  }

  /**
   Any deposit of a validator that is not active or may leave can make a yes wrong, for any number of transitions and with
   amounts, own deposit and churn all positive, even if it leaves between the last two of them: the entry is too large for
   the budget, of which it then takes nothing, and everything else fits into it.
   */
  lemma UnsoundAt(owners: Owners, kinds: Kinds, leaving: set<nat>, k: nat, transitions: nat)
    returns (amounts: seq<nat>, churn: nat, epochs: seq<Epoch>)
    requires k < |owners.queued| && !Keeps(owners.queued[k], kinds, leaving) && Keeps(owners.us, kinds, leaving)
    requires transitions > 0
    ensures |amounts| == |owners.queued| && (forall i :: 0 <= i < |amounts| ==> amounts[i] > 0) && churn > 0
    ensures SimSurvives(amounts + [1], 0, 0, churn, churn, transitions)
    ensures IsRun(kinds, leaving, churn, transitions, epochs)
    ensures forall i :: 0 <= i < transitions - 1 ==> epochs[i].kindOf == kinds
    ensures !StillQueued(Run(Chain(QueueOf(amounts, owners, 1), 0), churn, epochs))
    ensures !Reliable(amounts, owners, kinds, leaving, 1, 0, churn, churn, transitions) && !SoundFor(owners, kinds, leaving)
  {
    churn := |owners.queued| + 1;
    var big := transitions * churn + 1;
    amounts := BigAt(|owners.queued|, k, big);
    BlockedSurvives(amounts + [1], k, 0, 0, churn, churn, transitions);
    epochs := DrainedAtLast(owners, kinds, leaving, k, big, churn, transitions);
    assert !EveryRunKeeps(amounts, owners, kinds, leaving, 1, 0, churn, churn, transitions);
  }

  /** Three epochs, with validator 1 gone in the last two. */
  ghost function ExitEpochs(kinds: Kinds, gone: Kinds): seq<Epoch>
  {
    [Epoch(4, 4, [], kinds), Epoch(4, 4, [], gone), Epoch(4, 4, [], gone)]
  }

  lemma ExitEpochsAreRun(kinds: Kinds, gone: Kinds)
    requires MayFollow(kinds, {1}, kinds) && MayFollow(kinds, {1}, gone) && MayFollow(gone, {1}, gone)
    ensures IsRun(kinds, {1}, 4, 3, ExitEpochs(kinds, gone))
  {
    var epochs := ExitEpochs(kinds, gone);
    assert epochs[1..][0] == epochs[1] && epochs[1..][1..] == [epochs[2]] && [epochs[2]][1..] == [];
    assert InStep(gone, {1}, [epochs[2]]);
    assert InStep(kinds, {1}, epochs[1..]);
  }

  /** A walk that passes a free deposit and stops in front of one that is too large. */
  lemma FreeThenBlocked(queue: seq<Deposit>, kindOf: Kinds, available: nat, cap: nat, stop: nat)
    requires |queue| >= 2 && stop >= 2 && cap >= 2 && kindOf(queue[0].validator).Exited?
    requires kindOf(queue[1].validator).Active? && queue[1].amount > available
    ensures Walk(queue, kindOf, 0, 0, [], available, cap, stop) == Walked(1, 0, true, [queue[0]])
  {
    assert Walk(queue, kindOf, 1, 0, [queue[0]], available, cap, stop) == Walked(1, 0, true, [queue[0]]);
  }

  lemma PaidThenBlocked(queue: seq<Deposit>, kindOf: Kinds, available: nat, cap: nat, stop: nat)
    requires |queue| >= 2 && stop >= 2 && cap >= 2
    requires kindOf(queue[0].validator).Active? && kindOf(queue[1].validator).Active?
    requires queue[0].amount <= available < queue[0].amount + queue[1].amount
    ensures Walk(queue, kindOf, 0, 0, [], available, cap, stop) == Walked(1, queue[0].amount, true, [])
  {
    assert Walk(queue, kindOf, 1, queue[0].amount, [], available, cap, stop) == Walked(1, queue[0].amount, true, []);
  }

  lemma TwoPaid(queue: seq<Deposit>, kindOf: Kinds, available: nat, stop: nat)
    requires |queue| >= 2 && stop >= 2 && kindOf(queue[0].validator).Active? && kindOf(queue[1].validator).Active?
    requires queue[0].amount + queue[1].amount <= available
    ensures Walk(queue, kindOf, 0, 0, [], available, 2, stop) == Walked(2, queue[0].amount + queue[1].amount, false, [])
  {
    var paid := queue[0].amount + queue[1].amount;
    assert Walk(queue, kindOf, 2, paid, [], available, 2, stop) == Walked(2, paid, false, []);
    assert Walk(queue, kindOf, 1, queue[0].amount, [], available, 2, stop) == Walked(2, paid, false, []);
  }

  lemma ThreeTransitions(c: Chain, cap: nat, epochs: seq<Epoch>)
    requires |epochs| == 3
    ensures Run(c, cap, epochs) == Transition(Transition(Transition(c, cap, epochs[0]), cap, epochs[1]), cap, epochs[2])
  {
    var c2 := Transition(Transition(c, cap, epochs[0]), cap, epochs[1]);
    assert epochs[1..][1..] == [epochs[2]];
    assert Run(c2, cap, [epochs[2]]) == Transition(c2, cap, epochs[2]);
  }

  lemma ExitRun(kinds: Kinds, gone: Kinds)
    requires kinds(0).Active? && kinds(1).Active? && gone(1).Exited? && gone(2).Active? && gone(3).Active?
    ensures Run(Chain(QueueOf([1, 5, 10], Owners([0, 1, 2], 3), 1), 0), 2, ExitEpochs(kinds, gone))
      == Chain([Deposit(1, 5, false)], 0)
  {
    var d0, d1, d2, d3 := Deposit(0, 1, false), Deposit(1, 5, false), Deposit(2, 10, false), Deposit(3, 1, true);
    var queue := [d0, d1, d2, d3];
    assert QueueOf([1, 5, 10], Owners([0, 1, 2], 3), 1) == queue;
    ThreeTransitions(Chain(queue, 0), 2, ExitEpochs(kinds, gone));
    assert queue == [d0, d1] + [d2, d3] && [d1] + [d2, d3] == [d1, d2] + [d3] && [d2] + [d3] + [d1] == [d2, d3] + [d1];
    PaidTransition(d0, d1, [d2, d3], 0, kinds);
    FreeTransition(d1, d2, [d3], 3, gone);
    TwoPaidTransition(d2, d3, [d1], 7, gone);
  }

  lemma PaidTransition(a: Deposit, b: Deposit, rest: seq<Deposit>, toConsume: nat, kinds: Kinds)
    requires kinds(a.validator).Active? && kinds(b.validator).Active? && a.amount <= toConsume + 4 < a.amount + b.amount
    ensures Transition(Chain([a, b] + rest, toConsume), 2, Epoch(4, 4, [], kinds))
         == Chain([b] + rest, toConsume + 4 - a.amount)
  {
    var queue := [a, b] + rest;
    PaidThenBlocked(queue, kinds, toConsume + 4, 2, 4);
    assert queue[1..] + [] + [] == [b] + rest;
  }

  lemma FreeTransition(a: Deposit, b: Deposit, rest: seq<Deposit>, toConsume: nat, kinds: Kinds)
    requires kinds(a.validator).Exited? && kinds(b.validator).Active? && b.amount > toConsume + 4
    ensures Transition(Chain([a, b] + rest, toConsume), 2, Epoch(4, 4, [], kinds)) == Chain([b] + rest + [a], toConsume + 4)
  {
    var queue := [a, b] + rest;
    FreeThenBlocked(queue, kinds, toConsume + 4, 2, 4);
    assert queue[1..] + [a] + [] == [b] + rest + [a];
  }

  lemma TwoPaidTransition(a: Deposit, b: Deposit, rest: seq<Deposit>, toConsume: nat, kinds: Kinds)
    requires kinds(a.validator).Active? && kinds(b.validator).Active? && a.amount + b.amount <= toConsume + 4
    ensures Transition(Chain([a, b] + rest, toConsume), 2, Epoch(4, 4, [], kinds)) == Chain(rest, 0)
  {
    var queue := [a, b] + rest;
    TwoPaid(queue, kinds, toConsume + 4, 4);
    assert queue[2..] + [] + [] == rest;
  }

  /**
   Counting a deposit as free from the start does not make the estimate safe when its validator leaves later: waiting for it
   saves up budget. Here the simulation says yes for the amounts as well as with the second one at 0, and yet the run in which
   validator 1 exits after the first transition drains our deposit.
   */
  lemma ZeroWeightIsNotEnough() returns (kinds: Kinds, epochs: seq<Epoch>)
    ensures SimSurvives([1, 5, 10, 1], 0, 0, 4, 2, 3) && SimSurvives([1, 0, 10, 1], 0, 0, 4, 2, 3)
    ensures (forall v: nat :: kinds(v).Active?) && IsRun(kinds, {1}, 4, 3, epochs) && epochs[0].kindOf == kinds
    ensures !StillQueued(Run(Chain(QueueOf([1, 5, 10], Owners([0, 1, 2], 3), 1), 0), 2, epochs))
  {
    kinds := v => Active;
    var gone := Leave(kinds, 1);
    epochs := ExitEpochs(kinds, gone);
    ExitEpochsAreRun(kinds, gone);
    ExitRun(kinds, gone);
    assert SimWalk([1, 5, 10, 1], 1, 0, 0, 7, 2) == SimWalked(2, 5, true);
    assert SimWalk([1, 0, 10, 1], 0, 0, 0, 4, 2) == SimWalked(2, 1, false);
  }

  // ----- a bound that no exit can break -----

  /** What the entries take for certain: the amounts of validators that keep, 0 for all others. */
  function Certain(amounts: seq<nat>, owners: Owners, kinds: Kinds, leaving: set<nat>): (weights: seq<nat>)
    requires |amounts| == |owners.queued|
  {
    seq<nat>(|amounts|, k requires 0 <= k < |amounts| =>
      if kinds(owners.queued[k]).Active? && owners.queued[k] !in leaving then amounts[k] else 0)
  }

  predicate TakesAtLeast(d: Deposit, keeping: set<nat>, low: nat)
  {
    low == 0 || (d.validator in keeping && d.amount == low)
  }

  /** The front of the queue takes at least what is left of low once `head` entries have drained. */
  ghost predicate AtLeast(c: Chain, keeping: set<nat>, low: seq<nat>, head: nat)
  {
    && head < |low| <= head + |c.queue|
    && (forall k :: 0 <= k < |low| - head ==> TakesAtLeast(c.queue[k], keeping, low[head + k]))
    && c.queue[|low| - head - 1].ours
  }

  ghost predicate AllAreActive(keeping: set<nat>, kindOf: Kinds)
  {
    forall v :: v in keeping ==> kindOf(v).Active?
  }

  /** The walk pays for every certain entry that it passes. */
  lemma {:induction false} WalkPays(queue: seq<Deposit>, kindOf: Kinds, keeping: set<nat>, low: seq<nat>, head: nat,
                                    next: nat, processed: nat, postponed: seq<Deposit>, available: nat, cap: nat,
                                    stop: nat)
    requires next <= |queue| && head + next <= |low| <= head + |queue| && AllAreActive(keeping, kindOf)
    requires forall k :: next <= k < |low| - head ==> TakesAtLeast(queue[k], keeping, low[head + k])
    requires processed <= available && next <= cap
    ensures var w := Walk(queue, kindOf, next, processed, postponed, available, cap, stop);
      && next <= w.next <= |queue| && w.next <= cap && w.processed <= available
      && w.processed >= processed + Sum(low, Min(head + w.next, |low|)) - Sum(low, head + next)
    decreases |queue| - next
  {
    WalkInRange(queue, kindOf, next, processed, postponed, available, cap, stop);
    if next < |queue| && next < stop && next < cap {
      var kind := kindOf(queue[next].validator);
      var weight := Weight(queue[next].amount, kind);
      if processed + weight <= available {
        var postponed' := if kind.Exited? then postponed + [queue[next]] else postponed;
        if head + next < |low| {
          WalkPays(queue, kindOf, keeping, low, head, next + 1, processed + weight, postponed', available, cap, stop);
        } else {
          WalkCounts(queue, kindOf, next + 1, processed + weight, postponed', available, cap, stop);
        }
      }
    }
  }

  lemma {:induction false} WalkCounts(queue: seq<Deposit>, kindOf: Kinds, next: nat, processed: nat,
                                      postponed: seq<Deposit>, available: nat, cap: nat, stop: nat)
    requires next <= |queue| && next <= cap && processed <= available
    ensures Walk(queue, kindOf, next, processed, postponed, available, cap, stop).next <= cap
    ensures Walk(queue, kindOf, next, processed, postponed, available, cap, stop).processed >= processed
    decreases |queue| - next
  {
    if next < |queue| && next < stop && next < cap {
      var kind := kindOf(queue[next].validator);
      var weight := Weight(queue[next].amount, kind);
      if processed + weight <= available {
        WalkCounts(queue, kindOf, next + 1, processed + weight,
                   if kind.Exited? then postponed + [queue[next]] else postponed, available, cap, stop);
      }
    }
  }

  function Min(a: nat, b: nat): nat
  {
    if a <= b then a else b
  }

  /** The certain amounts and the cap together are more than the transitions left can drain. */
  ghost predicate OutOfReach(low: seq<nat>, head: nat, toConsume: nat, churn: nat, cap: nat, transitions: nat)
    requires head <= |low|
  {
    || Sum(low, |low|) - Sum(low, head) > toConsume + transitions * churn
    || |low| - head > transitions * cap
  }

  lemma AtLeastAfter(c: Chain, keeping: set<nat>, low: seq<nat>, head: nat, next: nat, queue: seq<Deposit>,
                     toConsume: nat)
    requires AtLeast(c, keeping, low, head) && head + next < |low| && next <= |c.queue|
    requires |c.queue[next..]| <= |queue| && queue[..|c.queue[next..]|] == c.queue[next..]
    ensures AtLeast(c.(queue := queue, toConsume := toConsume), keeping, low, head + next)
  {
    forall k | 0 <= k < |low| - (head + next)
      ensures queue[k] == c.queue[next + k]
    {
      assert queue[k] == queue[..|c.queue[next..]|][k];
    }
  }

  /** What one transition drains, at most the cap and paid for, leaves the rest out of reach. */
  lemma StillOutOfReach(low: seq<nat>, head: nat, next: nat, toConsume: nat, paid: nat, toConsume': nat, churn: nat,
                        cap: nat, transitions: nat)
    requires head < |low| && next <= cap && transitions > 0 && toConsume' + paid <= toConsume + churn
    requires OutOfReach(low, head, toConsume, churn, cap, transitions)
    requires paid >= Sum(low, Min(head + next, |low|)) - Sum(low, head)
    ensures head + next < |low| && OutOfReach(low, head + next, toConsume', churn, cap, transitions - 1)
  {
    var budget, places := (transitions - 1) * churn, (transitions - 1) * cap;
    assert budget >= 0 && places >= 0 && transitions * churn == budget + churn && transitions * cap == places + cap;
  }

  lemma EpochPays(c: Chain, keeping: set<nat>, low: seq<nat>, head: nat, churn: nat, cap: nat, e: Epoch,
                  transitions: nat)
    returns (head': nat)
    requires AtLeast(c, keeping, low, head) && AllAreActive(keeping, e.kindOf) && e.churn <= churn && transitions > 0
    requires OutOfReach(low, head, c.toConsume, churn, cap, transitions)
    ensures AtLeast(Transition(c, cap, e), keeping, low, head')
    ensures OutOfReach(low, head', Transition(c, cap, e).toConsume, churn, cap, transitions - 1)
  {
    WalkPays(c.queue, e.kindOf, keeping, low, head, 0, 0, [], c.toConsume + e.churn, cap, e.stop);
    var w := Walk(c.queue, e.kindOf, 0, 0, [], c.toConsume + e.churn, cap, e.stop);
    var c' := Transition(c, cap, e);
    StillOutOfReach(low, head, w.next, c.toConsume, w.processed, c'.toConsume, churn, cap, transitions);
    head' := head + w.next;
    AtLeastAfter(c, keeping, low, head, w.next, c'.queue, c'.toConsume);
  }

  lemma {:induction false} NeverReached(c: Chain, keeping: set<nat>, low: seq<nat>, head: nat, churn: nat, cap: nat,
                                        epochs: seq<Epoch>)
    requires AtLeast(c, keeping, low, head) && Allowed(epochs, churn)
    requires forall i :: 0 <= i < |epochs| ==> AllAreActive(keeping, epochs[i].kindOf)
    requires OutOfReach(low, head, c.toConsume, churn, cap, |epochs|)
    ensures StillQueued(Run(c, cap, epochs))
    decreases |epochs|
  {
    if epochs == [] {
      assert c.queue[|low| - head - 1] in c.queue;
    } else {
      assert epochs[0] in epochs;
      var head' := EpochPays(c, keeping, low, head, churn, cap, epochs[0], |epochs|);
      NeverReached(Transition(c, cap, epochs[0]), keeping, low, head', churn, cap, epochs[1..]);
    }
  }

  /** Those of the validators behind the queue that are active and stay so. */
  ghost function Keeping(owners: Owners, kinds: Kinds, leaving: set<nat>): set<nat>
  {
    set v | v in All(owners) && Keeps(v, kinds, leaving)
  }

  /**
   Whoever else leaves and whenever: our deposit outlasts every allowed run when the deposits that are certain to use churn
   exceed the whole budget up to the fork, or the entries the caps of all transitions.
   */
  lemma KeptWhoeverLeaves(amounts: seq<nat>, owners: Owners, kinds: Kinds, leaving: set<nat>, ourAmount: nat,
                          toConsume: nat, churn: nat, cap: nat, transitions: nat)
    requires |amounts| == |owners.queued| && Keeps(owners.us, kinds, leaving)
    requires OutOfReach(Certain(amounts, owners, kinds, leaving) + [ourAmount], 0, toConsume, churn, cap, transitions)
    ensures EveryRunKeeps(amounts, owners, kinds, leaving, ourAmount, toConsume, churn, cap, transitions)
  {
    var low, c := Certain(amounts, owners, kinds, leaving) + [ourAmount], Chain(QueueOf(amounts, owners, ourAmount), toConsume);
    var keeping := Keeping(owners, kinds, leaving);
    QueuedInAll(owners);
    assert AtLeast(c, keeping, low, 0);
    forall epochs: seq<Epoch> | IsRun(kinds, leaving, churn, transitions, epochs)
      ensures StillQueued(Run(c, cap, epochs))
    {
      assert keeping !! leaving;
      StayInStep(keeping, kinds, kinds, leaving, epochs);
      forall i | 0 <= i < |epochs|
        ensures AllAreActive(keeping, epochs[i].kindOf)
      {
        assert Stay(keeping, kinds, epochs[i].kindOf);
      }
      NeverReached(c, keeping, low, 0, churn, cap, epochs);
    }
  }

  // ----- the estimate errs only when it says yes -----

  ghost predicate Below(weights: seq<nat>, sim: seq<nat>)
  {
    |weights| == |sim| && forall k :: 0 <= k < |sim| ==> weights[k] <= sim[k]
  }

  /** From the same entry on, smaller amounts and no smaller a budget get no less far. */
  lemma {:induction false} WalkTogether(weights: seq<nat>, sim: seq<nat>, head: nat, cap: nat,
                                        count: nat, processed: nat, available: nat, count': nat, processed': nat, available': nat)
    requires Below(weights, sim) && head <= |sim| && count' <= count
    requires processed <= available && processed' <= available' && available - processed <= available' - processed'
    ensures var w := SimWalk(sim, head, count, processed, available, cap);
      var w' := SimWalk(weights, head, count', processed', available', cap);
      && w.head <= w'.head
      && (w.head == w'.head && w.limited ==> w'.limited && available - w.processed <= available' - w'.processed)
    decreases |sim| - head
  {
    if head < |sim| && count < cap && processed + sim[head] <= available {
      WalkTogether(weights, sim, head + 1, cap, count + 1, processed + sim[head], available,
                   count' + 1, processed' + weights[head], available');
    } else {
      SimWalkFacts(weights, head, count', processed', available', cap);
    }
  }

  /** A walk that gets as far as `mid` has paid for everything before it. */
  lemma {:induction false} WalkVia(sim: seq<nat>, head: nat, mid: nat, count: nat, processed: nat, available: nat,
                                   cap: nat)
    requires head <= mid <= |sim| && mid <= SimWalk(sim, head, count, processed, available, cap).head && processed <= available
    ensures var paid := processed + Sum(sim, mid) - Sum(sim, head);
      && processed <= paid <= available && (head < mid ==> processed + sim[head] <= paid)
      && SimWalk(sim, head, count, processed, available, cap)
        == SimWalk(sim, mid, count + (mid - head), paid, available, cap)
    decreases mid - head
  {
    if head < mid {
      SumMonotone(sim, head + 1, mid);
      WalkVia(sim, head + 1, mid, count + 1, processed + sim[head], available, cap);
    }
  }

  /** The walk over the amounts is behind; what it carries is not enough to overtake. */
  ghost predicate Behind(sim: seq<nat>, head: nat, toConsume: nat, head': nat, toConsume': nat)
  {
    head <= head' < |sim| && (head == head' ==> toConsume <= toConsume') && (head < head' ==> toConsume <= sim[head])
  }

  lemma {:induction false} SurvivesLonger(weights: seq<nat>, sim: seq<nat>, head: nat, toConsume: nat, head': nat,
                                          toConsume': nat, churn: nat, cap: nat, transitions: nat)
    requires Below(weights, sim) && Behind(sim, head, toConsume, head', toConsume')
    requires SimSurvives(weights, head', toConsume', churn, cap, transitions)
    ensures SimSurvives(sim, head, toConsume, churn, cap, transitions)
    decreases transitions
  {
    if transitions > 0 {
      var w, w' := SimWalk(sim, head, 0, 0, toConsume + churn, cap), SimWalk(weights, head', 0, 0, toConsume' + churn, cap);
      SimWalkFacts(sim, head, 0, 0, toConsume + churn, cap);
      SimWalkFacts(weights, head', 0, 0, toConsume' + churn, cap);
      if w.head >= head' {
        WalkVia(sim, head, head', 0, 0, toConsume + churn, cap);
        WalkTogether(weights, sim, head', cap, head' - head, Sum(sim, head') - Sum(sim, head), toConsume + churn,
                     0, 0, toConsume' + churn);
      }
      SurvivesLonger(weights, sim, w.head, if w.limited then toConsume + churn - w.processed else 0,
                     w'.head, if w'.limited then toConsume' + churn - w'.processed else 0, churn, cap, transitions - 1);
    }
  }

  /** Whatever the validators are and do, a no of the simulation is right: some allowed run drains our deposit. */
  lemma NoIsRight(amounts: seq<nat>, owners: Owners, kinds: Kinds, leaving: set<nat>, ourAmount: nat, toConsume: nat,
                  churn: nat, cap: nat, transitions: nat)
    requires |amounts| == |owners.queued| && cap > 0 && kinds(owners.us).Active?
    ensures EveryRunKeeps(amounts, owners, kinds, leaving, ourAmount, toConsume, churn, cap, transitions) ==>
      SimSurvives(amounts + [ourAmount], 0, toConsume, churn, cap, transitions)
  {
    var weights := Weights(amounts, owners, kinds) + [ourAmount];
    if SimSurvives(weights, 0, toConsume, churn, cap, transitions) {
      SurvivesLonger(weights, amounts + [ourAmount], 0, toConsume, 0, toConsume, churn, cap, transitions);
    } else {
      var epochs := DrainedWithSameKinds(amounts, owners, kinds, leaving, ourAmount, toConsume, churn, cap, transitions);
    }
  }

  // ----- the caller's wrapper -----

  datatype ChurnSpec = ChurnSpec(
    minPerEpochChurn: nat,
    churnQuotient: nat,
    maxActivationExitChurn: nat,
    effBalanceIncrement: nat,
    maxPendingDepositsPerEpoch: nat)

  function ActivationExitChurnLimit(totalActiveBalance: nat, spec: ChurnSpec): nat
  {
    if spec.churnQuotient == 0 then 0
    else
      var share := totalActiveBalance / spec.churnQuotient;
      var churn := if share < spec.minPerEpochChurn then spec.minPerEpochChurn else share;
      var rounded := if spec.effBalanceIncrement > 0 then churn - churn % spec.effBalanceIncrement else churn;
      if spec.maxActivationExitChurn > 0 && rounded > spec.maxActivationExitChurn then spec.maxActivationExitChurn
      else rounded
  }

  /** get_activation_exit_churn_limit by inequalities: what of the balance goes to one share, and how that is cut. */
  ghost predicate IsChurnLimit(balance: nat, spec: ChurnSpec, limit: nat)
  {
    if spec.churnQuotient == 0 then limit == 0
    else exists share: nat, rounded: nat :: ChurnLimitVia(balance, spec, share, rounded, limit)
  }

  ghost predicate ChurnLimitVia(balance: nat, spec: ChurnSpec, share: nat, rounded: nat, limit: nat)
  {
    && spec.churnQuotient * share <= balance < spec.churnQuotient * (share + 1)
    && (exists raised :: IsLarger(raised, share, spec.minPerEpochChurn) && RoundsDown(raised, spec.effBalanceIncrement, rounded))
    && limit <= rounded && (spec.maxActivationExitChurn > 0 ==> limit <= spec.maxActivationExitChurn)
    && (limit == rounded || limit == spec.maxActivationExitChurn > 0)
  }

  predicate IsLarger(larger: nat, a: nat, b: nat)
  {
    a <= larger && b <= larger && (larger == a || larger == b)
  }

  /** The largest multiple of the step that is not above the value; without a step the value itself. */
  ghost predicate RoundsDown(value: nat, step: nat, rounded: nat)
  {
    if step == 0 then rounded == value else rounded <= value < rounded + step && exists k: nat :: rounded == step * k
  }

  lemma RoundsDownTo(value: nat, step: nat)
    requires step > 0
    ensures RoundsDown(value, step, value - value % step)
  {
    assert value - value % step == step * (value / step);
  }

  lemma RoundsDownOnly(value: nat, step: nat, rounded: nat)
    requires step > 0 && RoundsDown(value, step, rounded)
    ensures rounded == value - value % step
  {
    var k: nat :| rounded == step * k;
    DivModUnique(value, step, k, value - rounded);
  }

  /** The limit computed is that limit and no other. */
  lemma ChurnLimitIs(balance: nat, spec: ChurnSpec, limit: nat)
    ensures IsChurnLimit(balance, spec, limit) <==> limit == ActivationExitChurnLimit(balance, spec)
  {
    if spec.churnQuotient > 0 {
      LimitIsChurnLimit(balance, spec);
      if IsChurnLimit(balance, spec, limit) {
        var share: nat, rounded: nat :| ChurnLimitVia(balance, spec, share, rounded, limit);
        OnlyChurnLimit(balance, spec, share, rounded, limit);
      }
    }
  }

  lemma LimitIsChurnLimit(balance: nat, spec: ChurnSpec)
    requires spec.churnQuotient > 0
    ensures IsChurnLimit(balance, spec, ActivationExitChurnLimit(balance, spec))
  {
    var share := balance / spec.churnQuotient;
    assert balance == spec.churnQuotient * share + balance % spec.churnQuotient;
    assert spec.churnQuotient * (share + 1) == spec.churnQuotient * share + spec.churnQuotient;
    var raised := if share < spec.minPerEpochChurn then spec.minPerEpochChurn else share;
    var step := spec.effBalanceIncrement;
    var rounded := if step > 0 then raised - raised % step else raised;
    if step > 0 {
      RoundsDownTo(raised, step);
    }
    assert IsLarger(raised, share, spec.minPerEpochChurn) && RoundsDown(raised, step, rounded);
    assert ChurnLimitVia(balance, spec, share, rounded, ActivationExitChurnLimit(balance, spec));
  }

  lemma OnlyChurnLimit(balance: nat, spec: ChurnSpec, share: nat, rounded: nat, limit: nat)
    requires spec.churnQuotient > 0 && ChurnLimitVia(balance, spec, share, rounded, limit)
    ensures limit == ActivationExitChurnLimit(balance, spec)
  {
    assert spec.churnQuotient * (share + 1) == spec.churnQuotient * share + spec.churnQuotient;
    DivModUnique(balance, spec.churnQuotient, share, balance - spec.churnQuotient * share);
    var raised :| IsLarger(raised, share, spec.minPerEpochChurn) && RoundsDown(raised, spec.effBalanceIncrement, rounded);
    if spec.effBalanceIncrement > 0 {
      RoundsDownOnly(raised, spec.effBalanceIncrement, rounded);
    }
  }

  lemma RoundDownMonotone(a: nat, b: nat, d: nat)
    requires d > 0 && a <= b
    ensures a - a % d <= b - b % d
  {
    DivMonotone(a, b, d);
    assert a - a % d == d * (a / d) && b - b % d == d * (b / d);
    assert d * (a / d) <= d * (b / d);
  }

  /** Less active balance never means more churn. */
  lemma ChurnLimitMonotone(balance: nat, balance': nat, spec: ChurnSpec)
    requires balance <= balance'
    ensures ActivationExitChurnLimit(balance, spec) <= ActivationExitChurnLimit(balance', spec)
  {
    if spec.churnQuotient > 0 {
      DivMonotone(balance, balance', spec.churnQuotient);
      var share, share' := balance / spec.churnQuotient, balance' / spec.churnQuotient;
      var churn := if share < spec.minPerEpochChurn then spec.minPerEpochChurn else share;
      var churn' := if share' < spec.minPerEpochChurn then spec.minPerEpochChurn else share';
      if spec.effBalanceIncrement > 0 {
        RoundDownMonotone(churn, churn', spec.effBalanceIncrement);
      }
    }
  }

  datatype EpochStats = EpochStats(
    epoch: nat,
    totalActiveBalance: nat,
    pendingDeposits: seq<nat>,
    depositBalanceToConsume: nat)

  method DepositSurvivesUntilFork(stats: Option<EpochStats>, spec: Option<ChurnSpec>, ourAmount: nat, forkEpoch: nat)
    returns (survives: bool)
    requires stats.Some? && spec.Some? ==>
      Sum(stats.value.pendingDeposits, |stats.value.pendingDeposits|) + ourAmount + stats.value.depositBalanceToConsume
        + ActivationExitChurnLimit(stats.value.totalActiveBalance, spec.value) < TWO_TO_64
    ensures survives <==>
      && stats.Some? && spec.Some? && forkEpoch > stats.value.epoch
      && spec.value.maxPendingDepositsPerEpoch > 0 && spec.value.churnQuotient > 0
      && KeptIfAllKeep(stats.value, spec.value, ourAmount, forkEpoch)
  {
    if stats.None? || spec.None? || forkEpoch <= stats.value.epoch {
      return false;
    }
    if spec.value.maxPendingDepositsPerEpoch == 0 || spec.value.churnQuotient == 0 {
      return false;
    }
    var churnLimit := ActivationExitChurnLimit(stats.value.totalActiveBalance, spec.value);
    var transitions := forkEpoch - stats.value.epoch;
    survives := SimulateDepositSurvives(stats.value.pendingDeposits, ourAmount, stats.value.depositBalanceToConsume,
                                        churnLimit, spec.value.maxPendingDepositsPerEpoch, transitions);
    KeptIfSimulated(stats.value, spec.value, ourAmount, forkEpoch);
  }

  /**
   The epochs from the snapshot to the fork: each with the churn limit of its own active balance, no larger than
   the snapshot's.
   */
  ghost predicate EpochsUntilFork(stats: EpochStats, spec: ChurnSpec, forkEpoch: nat, epochs: seq<Epoch>,
                                  balances: seq<nat>)
  {
    && stats.epoch <= forkEpoch
    && |epochs| == |balances| == forkEpoch - stats.epoch
    && (forall i :: 0 <= i < |epochs| ==> balances[i] <= stats.totalActiveBalance)
    && (forall i :: 0 <= i < |epochs| ==> IsChurnLimit(balances[i], spec, epochs[i].churn))
    && (forall i :: 0 <= i < |epochs| ==> forall d :: d in epochs[i].arrivals ==> !d.ours)
  }

  /** Whatever those epochs bring, our deposit is still queued at the fork. */
  ghost predicate KeptUntilFork(stats: EpochStats, owners: Owners, kinds: Kinds, leaving: set<nat>, spec: ChurnSpec,
                                ourAmount: nat, forkEpoch: nat)
    requires |owners.queued| == |stats.pendingDeposits|
  {
    forall epochs: seq<Epoch>, balances: seq<nat> ::
      EpochsUntilFork(stats, spec, forkEpoch, epochs, balances) && InStep(kinds, leaving, epochs) ==>
        StillQueued(Run(Chain(QueueOf(stats.pendingDeposits, owners, ourAmount), stats.depositBalanceToConsume),
                        spec.maxPendingDepositsPerEpoch, epochs))
  }

  /** ... when the queued deposits, whosever they are, are all of active validators that do not leave before the fork. */
  ghost predicate KeptIfAllKeep(stats: EpochStats, spec: ChurnSpec, ourAmount: nat, forkEpoch: nat)
  {
    forall owners: Owners, kinds: Kinds, leaving: set<nat> ::
      AllKeep(stats, owners, kinds, leaving) ==> KeptUntilFork(stats, owners, kinds, leaving, spec, ourAmount, forkEpoch)
  }

  ghost predicate AllKeep(stats: EpochStats, owners: Owners, kinds: Kinds, leaving: set<nat>)
  {
    |owners.queued| == |stats.pendingDeposits| && forall v :: v in All(owners) ==> Keeps(v, kinds, leaving)
  }

  ghost predicate SimulatedUntilFork(stats: EpochStats, weights: seq<nat>, spec: ChurnSpec, ourAmount: nat,
                                     forkEpoch: nat)
    requires forkEpoch > stats.epoch
  {
    SimSurvives(weights + [ourAmount], 0, stats.depositBalanceToConsume, ActivationExitChurnLimit(stats.totalActiveBalance, spec),
                spec.maxPendingDepositsPerEpoch, forkEpoch - stats.epoch)
  }

  lemma KeptIfSimulated(stats: EpochStats, spec: ChurnSpec, ourAmount: nat, forkEpoch: nat)
    requires forkEpoch > stats.epoch && spec.maxPendingDepositsPerEpoch > 0
    ensures KeptIfAllKeep(stats, spec, ourAmount, forkEpoch) <==>
      SimulatedUntilFork(stats, stats.pendingDeposits, spec, ourAmount, forkEpoch)
  {
    forall owners: Owners, kinds: Kinds, leaving: set<nat> | AllKeep(stats, owners, kinds, leaving)
      ensures KeptUntilFork(stats, owners, kinds, leaving, spec, ourAmount, forkEpoch) <==>
        SimulatedUntilFork(stats, stats.pendingDeposits, spec, ourAmount, forkEpoch)
    {
      QueuedInAll(owners);
      ActiveWeights(stats.pendingDeposits, owners, kinds);
      KeptIffWeighted(stats, owners, kinds, leaving, spec, ourAmount, forkEpoch);
    }
    var someone := Owners(seq(|stats.pendingDeposits|, i => 0), 0);
    assert AllKeep(stats, someone, v => Active, {});
  }

  lemma QueuedInAll(owners: Owners)
    ensures owners.us in All(owners) && forall k :: 0 <= k < |owners.queued| ==> owners.queued[k] in All(owners)
  {
  }

  /**
   For every queue of which no validator changes before the fork, and every active balance that does not rise, the fork is
   reached exactly if the weighted simulation says so.
   */
  lemma KeptIffWeighted(stats: EpochStats, owners: Owners, kinds: Kinds, leaving: set<nat>, spec: ChurnSpec,
                        ourAmount: nat, forkEpoch: nat)
    requires |owners.queued| == |stats.pendingDeposits| && forkEpoch > stats.epoch && spec.maxPendingDepositsPerEpoch > 0
    requires kinds(owners.us).Active? && All(owners) !! leaving
    ensures KeptUntilFork(stats, owners, kinds, leaving, spec, ourAmount, forkEpoch) <==>
      SimulatedUntilFork(stats, Weights(stats.pendingDeposits, owners, kinds), spec, ourAmount, forkEpoch)
  {
    var churn := ActivationExitChurnLimit(stats.totalActiveBalance, spec);
    var sim := Weights(stats.pendingDeposits, owners, kinds) + [ourAmount];
    var c := Chain(QueueOf(stats.pendingDeposits, owners, ourAmount), stats.depositBalanceToConsume);
    var cap, transitions := spec.maxPendingDepositsPerEpoch, forkEpoch - stats.epoch;
    QueueIsAligned(stats.pendingDeposits, owners, kinds, ourAmount, stats.depositBalanceToConsume);
    if SimSurvives(sim, 0, c.toConsume, churn, cap, transitions) {
      forall epochs: seq<Epoch>, balances: seq<nat> |
        EpochsUntilFork(stats, spec, forkEpoch, epochs, balances) && InStep(kinds, leaving, epochs)
        ensures StillQueued(Run(c, cap, epochs))
      {
        forall i | 0 <= i < |epochs|
          ensures epochs[i].churn <= churn
        {
          ChurnLimitIs(balances[i], spec, epochs[i].churn);
          ChurnLimitMonotone(balances[i], stats.totalActiveBalance, spec);
        }
        StayInStep(All(owners), kinds, kinds, leaving, epochs);
        NeverDrained(c, kinds, All(owners), sim, 0, 0, c.toConsume, churn, cap, epochs);
      }
    } else {
      var epochs := DrainedWithSameKinds(stats.pendingDeposits, owners, kinds, leaving, ourAmount, c.toConsume, churn, cap,
                                         transitions);
      FullEpochsShape(kinds, churn, |sim|, transitions, leaving);
      var balances: seq<nat> := seq(transitions, i => stats.totalActiveBalance);
      ChurnLimitIs(stats.totalActiveBalance, spec, churn);
      assert EpochsUntilFork(stats, spec, forkEpoch, epochs, balances);
    }
  }
}
