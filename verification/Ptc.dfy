/**
 The payload timeliness committee of a slot (pkg/chain/duties.go, getPtcDuties):
 balance-weighted draws over the slot's concatenated committees, in cyclic order.
 */
module Ptc {
  import opened Common
  import opened Arith
  import opened Bytes
  import opened Shuffle

  const MAX_RANDOM_VALUE: nat := 65535

  type Random = v: nat | v <= MAX_RANDOM_VALUE

  /** The 16-bit random value of draw i. */
  function RandomValue(h: HashFn, seed: Bytes32, i: nat): Random
  {
    var hash := h(seed + ToLE(i / 16, 8));
    var offset := i % 16 * 2;
    var pair := hash[offset..offset + 2];
    FromLE2(pair);
    FromLE(pair)
  }

  /** One hash serves sixteen draws, two bytes to each, least significant first. */
  lemma RandomValueAt(h: HashFn, seed: Bytes32, i: nat, block: nat, at: nat, hash: Bytes32)
    requires at < 16 && i == 16 * block + at && hash == h(seed + ToLE(block, 8))
    ensures RandomValue(h, seed, i) == Word(hash[2 * at], hash[2 * at + 1], 0, 0)
  {
    DivModUnique(i, 16, block, at);
    FromLE2(hash[2 * at..2 * at + 2]);
  }

  function Randomness(h: HashFn, seed: Bytes32): nat -> Random
  {
    (i: nat) => RandomValue(h, seed, i)
  }

  predicate Accepts(balance: nat, maxBalance: nat, random: nat)
  {
    balance * MAX_RANDOM_VALUE >= maxBalance * random
  }

  /** The largest random value that accepts: so quota + 1 of the 65536 values do, in proportion to the balance. */
  ghost predicate IsQuota(quota: nat, balance: nat, maxBalance: nat)
  {
    maxBalance * quota <= balance * MAX_RANDOM_VALUE < maxBalance * (quota + 1)
  }

  /** Exactly the values up to the quota accept. */
  lemma AcceptsUpToQuota(quota: nat, balance: nat, maxBalance: nat, random: Random)
    requires IsQuota(quota, balance, maxBalance)
    ensures Accepts(balance, maxBalance, random) <==> random <= quota
  {
    if random <= quota {
      assert maxBalance * random <= maxBalance * quota;
    } else {
      assert maxBalance * (quota + 1) <= maxBalance * random;
    }
  }

  ghost function Accepting(balance: nat, maxBalance: nat, below: nat): set<nat>
  {
    set v | 0 <= v < below && Accepts(balance, maxBalance, v)
  }

  /** A balance of at most the maximum is accepted by balance * 65535 / maxBalance + 1 of the 65536 random values. */
  lemma AcceptedInProportion(quota: nat, balance: nat, maxBalance: nat)
    requires IsQuota(quota, balance, maxBalance) && balance <= maxBalance
    ensures |Accepting(balance, maxBalance, MAX_RANDOM_VALUE + 1)| == quota + 1
  {
    QuotaInRange(quota, balance, maxBalance);
    var accepted := Accepting(balance, maxBalance, MAX_RANDOM_VALUE + 1);
    forall v: nat
      ensures v in accepted <==> v < quota + 1
    {
      if v <= MAX_RANDOM_VALUE {
        AcceptsUpToQuota(quota, balance, maxBalance, v);
      }
    }
    SizeBelow(accepted, quota + 1);
  }

  lemma QuotaInRange(quota: nat, balance: nat, maxBalance: nat)
    requires IsQuota(quota, balance, maxBalance) && balance <= maxBalance
    ensures quota <= MAX_RANDOM_VALUE
  {
    assert balance * MAX_RANDOM_VALUE <= maxBalance * MAX_RANDOM_VALUE;
    assert maxBalance > 0;
    CancelFactor(maxBalance, quota, MAX_RANDOM_VALUE);
  }

  lemma {:induction false} SizeBelow(values: set<nat>, n: nat)
    requires forall v: nat :: v in values <==> v < n
    ensures |values| == n
  {
    if n == 0 {
      assert values == {};
    } else {
      SizeBelow(values - {n - 1}, n - 1);
    }
  }

  /** A larger balance is accepted by every value that accepts a smaller one. */
  lemma AcceptsMore(balance: nat, balance': nat, maxBalance: nat, random: nat)
    requires balance <= balance' && Accepts(balance, maxBalance, random)
    ensures Accepts(balance', maxBalance, random)
  {
  }

  /** Draw i looks at the members in turn and keeps the candidate by its balance. */
  ghost function Hit(random: nat -> Random, members: seq<nat>, balance: nat -> nat, maxBalance: nat): nat -> bool
    requires members != []
  {
    (i: nat) => Accepts(balance(members[i % |members|]), maxBalance, random(i))
  }

  /** The members kept by the first `draws` draws, in order. */
  ghost function Kept(members: seq<nat>, hit: nat -> bool, draws: nat): (s: seq<nat>)
    requires members != []
    ensures |s| <= draws
    ensures forall v :: v in s ==> v in members
  {
    if draws == 0 then []
    else if hit(draws - 1) then Kept(members, hit, draws - 1) + [members[(draws - 1) % |members|]]
    else Kept(members, hit, draws - 1)
  }

  lemma {:induction false} KeptMore(members: seq<nat>, hit: nat -> bool, hit': nat -> bool, draws: nat)
    requires members != [] && forall i: nat :: hit(i) ==> hit'(i)
    ensures multiset(Kept(members, hit, draws)) <= multiset(Kept(members, hit', draws))
  {
    if draws > 0 {
      KeptMore(members, hit, hit', draws - 1);
    }
  }

  /** Raising balances loses nobody a place: whatever the draws, they keep all that they kept before. */
  lemma KeptInOrder(random: nat -> Random, members: seq<nat>, balance: nat -> nat, balance': nat -> nat, maxBalance: nat,
                    draws: nat)
    requires members != [] && forall v: nat :: balance(v) <= balance'(v)
    ensures multiset(Kept(members, Hit(random, members, balance, maxBalance), draws))
         <= multiset(Kept(members, Hit(random, members, balance', maxBalance), draws))
  {
    var hit, hit' := Hit(random, members, balance, maxBalance), Hit(random, members, balance', maxBalance);
    forall i: nat | hit(i)
      ensures hit'(i)
    {
      AcceptsMore(balance(members[i % |members|]), balance'(members[i % |members|]), maxBalance, random(i));
    }
    KeptMore(members, hit, hit', draws);
  }

  lemma KeptStep(members: seq<nat>, hit: nat -> bool, i: nat)
    requires members != []
    ensures Kept(members, hit, i + 1) == Kept(members, hit, i) + if hit(i) then [members[i % |members|]] else []
  {
    assert Kept(members, hit, i) + [] == Kept(members, hit, i);
  }

  /** The draw keeps its candidate exactly if the random value is at most the quota of the candidate's balance. */
  lemma KeptByQuota(random: nat -> Random, members: seq<nat>, balance: nat -> nat, maxBalance: nat, i: nat, quota: nat)
    requires members != [] && IsQuota(quota, balance(members[i % |members|]), maxBalance)
    ensures var hit := Hit(random, members, balance, maxBalance);
      Kept(members, hit, i + 1) == Kept(members, hit, i) + if random(i) <= quota then [members[i % |members|]] else []
  {
    AcceptsUpToQuota(quota, balance(members[i % |members|]), maxBalance, random(i));
    KeptStep(members, Hit(random, members, balance, maxBalance), i);
  }

  lemma {:induction false} KeptGrows(members: seq<nat>, hit: nat -> bool, a: nat, b: nat)
    requires members != [] && a <= b
    ensures |Kept(members, hit, a)| <= |Kept(members, hit, b)|
    decreases b
  {
    if a < b {
      KeptGrows(members, hit, a, b - 1);
    }
  }

  /** When one member is kept whenever it comes up, every full cycle through the members keeps at least one. */
  lemma {:induction false} OnePerCycle(members: seq<nat>, hit: nat -> bool, full: nat, cycles: nat)
    requires full < |members|
    requires forall i: nat :: i % |members| == full ==> hit(i)
    ensures |Kept(members, hit, cycles * |members|)| >= cycles
  {
    if cycles > 0 {
      OnePerCycle(members, hit, full, cycles - 1);
      var start := (cycles - 1) * |members|;
      assert start + |members| == cycles * |members|;
      DivModUnique(start + full, |members|, cycles - 1, full);
      KeptGrows(members, hit, start, start + full);
      KeptGrows(members, hit, start + full + 1, start + |members|);
    }
  }

  lemma MaxBalanceAccepted(balance: nat, maxBalance: nat, random: Random)
    requires balance >= maxBalance
    ensures Accepts(balance, maxBalance, random)
  {
    assert maxBalance * random <= maxBalance * MAX_RANDOM_VALUE;
  }

  /** A member of maximum balance is kept whenever it is drawn. */
  lemma FullMemberHits(random: nat -> Random, members: seq<nat>, balance: nat -> nat, maxBalance: nat, full: nat)
    requires full < |members| && balance(members[full]) >= maxBalance
    ensures forall i: nat :: i % |members| == full ==> Hit(random, members, balance, maxBalance)(i)
  {
    forall i: nat | i % |members| == full
      ensures Hit(random, members, balance, maxBalance)(i)
    {
      MaxBalanceAccepted(balance(members[full]), maxBalance, random(i));
    }
  }

  method ConcatCommittees(committees: seq<seq<nat>>) returns (indices: seq<nat>)
    ensures indices == Flat(committees)
  {
    indices := [];
    for c := 0 to |committees|
      invariant indices == Flat(committees[..c])
    {
      indices := indices + committees[c];
      assert committees[..c + 1][..c] == committees[..c];
    }
    assert committees[..|committees|] == committees;
  }

  /** The products of the comparison fit in 64 bits. */
  predicate NoOverflow(members: seq<nat>, balance: nat -> nat, maxBalance: nat)
  {
    && maxBalance * MAX_RANDOM_VALUE < TWO_TO_64
    && forall v :: v in members ==> balance(v) * MAX_RANDOM_VALUE < TWO_TO_64
  }

  /** `selected` is what the draws keep, stopped at the draw that fills the committee, after at most `bound` draws. */
  ghost predicate FilledBy(members: seq<nat>, hit: nat -> bool, selected: seq<nat>, ptcSize: nat, bound: int)
    requires members != []
  {
    exists draws: nat ::
      && 0 < draws <= bound
      && selected == Kept(members, hit, draws)
      && |Kept(members, hit, draws - 1)| < ptcSize
  }

  /** The selection loop, which comes to an end because `bound` draws keep enough. */
  method SelectMembers(random: nat -> Random, indices: seq<nat>, balance: nat -> nat, maxBalance: nat,
                       ptcSize: nat, ghost bound: nat)
    returns (selected: seq<nat>)
    requires ptcSize > 0 && indices != []
    requires |Kept(indices, Hit(random, indices, balance, maxBalance), bound)| >= ptcSize
    requires NoOverflow(indices, balance, maxBalance)
    ensures |selected| == ptcSize
    ensures FilledBy(indices, Hit(random, indices, balance, maxBalance), selected, ptcSize, bound)
  {
    ghost var hit := Hit(random, indices, balance, maxBalance);
    selected := [];
    var i: nat := 0;
    while |selected| < ptcSize
      invariant selected == Kept(indices, hit, i)
      invariant |selected| <= ptcSize && i <= bound
      invariant i > 0 ==> |Kept(indices, hit, i - 1)| < ptcSize
      decreases bound - i
    {
      assert i != bound;
      var candidate := indices[i % |indices|];
      var accept := Draw(balance(candidate), maxBalance, random(i));
      if accept {
        selected := selected + [candidate];
      }
      i := i + 1;
    }
  }

  /** getPtcDuties from the point where the slot's seed is known; not ok is the empty-committee error. */
  method GetPtcDuties(h: HashFn, seed: Bytes32, committees: seq<seq<nat>>, balance: nat -> nat, maxBalance: nat,
                      ptcSize: nat, ghost full: nat)
    returns (selected: seq<nat>, ok: bool)
    requires ptcSize > 0 && Flat(committees) != [] ==>
      && full < |Flat(committees)| && balance(Flat(committees)[full]) >= maxBalance
    requires NoOverflow(Flat(committees), balance, maxBalance)
    ensures ok <==> ptcSize == 0 || Flat(committees) != []
    ensures ok ==> |selected| == ptcSize
    ensures ok ==> forall v :: v in selected ==> v in Flat(committees)
    ensures ok && ptcSize > 0 ==>
      FilledBy(Flat(committees), Hit(Randomness(h, seed), Flat(committees), balance, maxBalance), selected, ptcSize,
               ptcSize * |Flat(committees)|)
  {
    if ptcSize == 0 {
      return [], true;
    }
    var indices := ConcatCommittees(committees);
    if |indices| == 0 {
      return [], false;
    }
    FullMemberHits(Randomness(h, seed), indices, balance, maxBalance, full);
    OnePerCycle(indices, Hit(Randomness(h, seed), indices, balance, maxBalance), full, ptcSize);
    selected := SelectMembers(Randomness(h, seed), indices, balance, maxBalance, ptcSize, ptcSize * |indices|);
    return selected, true;
  }

  /** The 64-bit comparison of one draw. */
  method Draw(balance: nat, maxBalance: nat, random: Random) returns (accept: bool)
    requires maxBalance * MAX_RANDOM_VALUE < TWO_TO_64 && balance * MAX_RANDOM_VALUE < TWO_TO_64
    ensures accept == Accepts(balance, maxBalance, random)
  {
    NoWrap(maxBalance, random);
    var left, right := balance * MAX_RANDOM_VALUE, maxBalance * random;
    accept := left % TWO_TO_64 >= right % TWO_TO_64;
  }

  lemma NoWrap(maxBalance: nat, random: Random)
    ensures 0 <= maxBalance * random <= maxBalance * MAX_RANDOM_VALUE
  {
    assert maxBalance * (MAX_RANDOM_VALUE - random) >= 0;
  }
}
