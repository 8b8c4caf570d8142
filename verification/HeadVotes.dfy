/**
 The head-vote tracker (pkg/chain/headvotes.go): per slot and block root a bitmap of the committee members that voted,
 with a vote count and a weight that are kept up to date vote by vote.
 */
module HeadVotes {
  import opened Common
  import opened Arith
  import opened VoteBits
  import opened AggregateBits

  const MAX_TRACKED_ROOTS: nat := 4
  const SLOT_RETENTION: nat := 8

  /** voteTimes holds, per position, the ms offset of the vote from the slot start plus one, or 0. */
  datatype RootVotes = RootVotes(
    voteBits: seq<bv8>,
    voteTimes: seq<nat>,
    blockBits: Option<seq<bv8>>,
    participatingETH: nat,
    voteCount: nat,
    lastFiredPct: real,
    thresholdFired: bool,
    dirty: bool)

  /** headRoot is 0 until a head event names the head. */
  datatype SlotVotes = SlotVotes(layout: Layout, roots: map<nat, RootVotes>, headRoot: nat)

  datatype Update = Update(slot: nat, root: nat, participationETH: nat, voteCount: nat, thresholdMet: bool)

  /** One call of fire, and whether the threshold check made it. */
  datatype Firing = Firing(update: Update, byThreshold: bool)

  // ----- the recomputation that the counters stand for -----

  /** The weight of the voters among the first n positions. */
  ghost function WeightOf(weights: seq<nat>, voters: set<nat>, n: nat): nat
    requires n <= |weights|
  {
    if n == 0 then 0 else WeightOf(weights, voters, n - 1) + if n - 1 in voters then weights[n - 1] else 0
  }

  lemma {:induction false} WeightOfOneMore(weights: seq<nat>, voters: set<nat>, n: nat, pos: nat)
    requires n <= |weights| && pos !in voters
    ensures WeightOf(weights, voters + {pos}, n) == WeightOf(weights, voters, n) + if pos < n then weights[pos] else 0
  {
    if n > 0 {
      WeightOfOneMore(weights, voters, n - 1, pos);
    }
  }

  lemma {:induction false} WeightAtMostTotal(weights: seq<nat>, voters: set<nat>, n: nat)
    requires n <= |weights|
    ensures WeightOf(weights, voters, n) <= Sum(weights[..n])
  {
    if n > 0 {
      assert weights[..n][..n - 1] == weights[..n - 1];
      WeightAtMostTotal(weights, voters, n - 1);
    }
  }

  ghost predicate LayoutOk(layout: Layout)
  {
    && LayoutShape(layout)
    && |layout.weights| == layout.totalMembers && layout.totalSlotETH == Sum(layout.weights)
    && forall v :: v in layout.positions ==> layout.positions[v] < layout.totalMembers
  }

  ghost predicate Within(positions: set<nat>, n: nat)
  {
    forall p :: p in positions ==> p < n
  }

  /** Counters and arrival times agree with the bitmap. */
  ghost predicate RootOk(layout: Layout, rs: RootVotes)
    requires LayoutOk(layout)
  {
    && |rs.voteBits| == (layout.totalMembers + 7) / 8 && Within(Members(rs.voteBits), layout.totalMembers)
    && rs.voteCount == |Members(rs.voteBits)|
    && rs.participatingETH == WeightOf(layout.weights, Members(rs.voteBits), layout.totalMembers)
    && |rs.voteTimes| == layout.totalMembers
    && (forall p: nat :: p < layout.totalMembers ==> (rs.voteTimes[p] != 0 <==> p in Members(rs.voteBits)))
    && (rs.blockBits.Some? ==> |rs.blockBits.value| == |rs.voteBits| && Within(Members(rs.blockBits.value), layout.totalMembers))
  }

  lemma RootBounds(layout: Layout, rs: RootVotes)
    requires LayoutOk(layout) && RootOk(layout, rs)
    ensures rs.participatingETH <= layout.totalSlotETH
    ensures rs.voteCount <= layout.totalMembers
  {
    WeightAtMostTotal(layout.weights, Members(rs.voteBits), layout.totalMembers);
    assert layout.weights[..layout.totalMembers] == layout.weights;
    WithinIsSmall(Members(rs.voteBits), layout.totalMembers);
  }

  lemma {:induction false} WithinIsSmall(positions: set<nat>, n: nat)
    requires Within(positions, n)
    ensures |positions| <= n
  {
    BelowHas(n);
    SubsetSize(positions, Below(n));
  }

  ghost function Below(n: nat): (s: set<nat>)
  {
    if n == 0 then {} else Below(n - 1) + {n - 1}
  }

  lemma {:induction false} BelowHas(n: nat)
    ensures |Below(n)| == n && forall p: nat :: p in Below(n) <==> p < n
  {
    if n > 0 {
      BelowHas(n - 1);
    }
  }

  // ----- participation and the threshold -----

  function Pct(layout: Layout, participatingETH: nat): real
  {
    if layout.totalSlotETH == 0 then 0.0 else participatingETH as real / layout.totalSlotETH as real * 100.0
  }

  lemma PctMonotone(layout: Layout, a: nat, b: nat)
    requires a <= b
    ensures Pct(layout, a) <= Pct(layout, b)
  {
    if layout.totalSlotETH > 0 {
      QuotientMonotone(a as real, b as real, layout.totalSlotETH as real);
    }
  }

  predicate Crossed(threshold: nat, layout: Layout, rs: RootVotes)
  {
    threshold > 0 && Pct(layout, rs.participatingETH) >= threshold as real
  }

  /** A root that is not marked for the next flush looks as in its last update, or has no votes. */
  ghost predicate Shown(layout: Layout, rs: RootVotes)
  {
    !rs.dirty ==> rs.lastFiredPct == Pct(layout, rs.participatingETH)
  }

  /** The threshold is met when the weight is that many hundredths of the slot's total. */
  lemma CrossedIff(threshold: nat, layout: Layout, rs: RootVotes)
    ensures Crossed(threshold, layout, rs) <==>
      threshold > 0 && layout.totalSlotETH > 0 && 100 * rs.participatingETH >= threshold * layout.totalSlotETH
  {
    if layout.totalSlotETH > 0 && 100 * rs.participatingETH >= threshold * layout.totalSlotETH {
      PctAbove(layout, rs.participatingETH, threshold);
    } else if layout.totalSlotETH > 0 {
      PctBelow(layout, rs.participatingETH, threshold);
    }
  }

  lemma PctAbove(layout: Layout, weight: nat, threshold: nat)
    requires layout.totalSlotETH > 0 && 100 * weight >= threshold * layout.totalSlotETH
    ensures Pct(layout, weight) >= threshold as real
  {
    var w, t, total := weight as real, threshold as real, layout.totalSlotETH as real;
    assert w * 100.0 >= t * total;
    QuotientMonotone(t * total, w * 100.0, total);
    assert w / total * 100.0 == w * 100.0 / total;
    assert t * total / total == t;
  }

  ghost predicate Sound(threshold: nat, layout: Layout, rs: RootVotes)
    requires LayoutOk(layout)
  {
    RootOk(layout, rs) && (rs.thresholdFired ==> Crossed(threshold, layout, rs)) && Shown(layout, rs)
  }

  ghost predicate RootsOk(threshold: nat, s: SlotVotes)
  {
    && LayoutOk(s.layout) && |s.roots| <= MAX_TRACKED_ROOTS
    && forall r {:trigger Sound(threshold, s.layout, s.roots[r])} :: r in s.roots ==> Sound(threshold, s.layout, s.roots[r])
  }

  ghost predicate HeadTracked(s: SlotVotes)
  {
    s.headRoot != 0 ==> s.headRoot in s.roots
  }

  /** If the head has crossed the threshold, it is marked as announced. */
  ghost predicate HeadSettled(threshold: nat, s: SlotVotes)
  {
    s.headRoot in s.roots && Crossed(threshold, s.layout, s.roots[s.headRoot]) ==> s.roots[s.headRoot].thresholdFired
  }

  ghost predicate SlotOk(threshold: nat, s: SlotVotes)
  {
    RootsOk(threshold, s) && HeadTracked(s) && HeadSettled(threshold, s)
  }

  /** The voters weigh the threshold's share of the slot. */
  ghost predicate VotesMeet(threshold: nat, layout: Layout, voters: set<nat>)
  {
    && LayoutOk(layout) && threshold > 0
    && Pct(layout, WeightOf(layout.weights, voters, layout.totalMembers)) >= threshold as real
  }

  /** Recomputed from the votes: those for the root weigh enough. */
  ghost predicate VotersMeet(threshold: nat, s: SlotVotes, root: nat)
  {
    VotesMeet(threshold, s.layout, Voters(s, root))
  }

  /** With the counters recomputed: the head is marked as announced exactly when its voters weigh enough. */
  lemma HeadFiredIffCrossed(threshold: nat, s: SlotVotes)
    requires SlotOk(threshold, s) && s.headRoot in s.roots
    ensures s.roots[s.headRoot].thresholdFired <==> VotersMeet(threshold, s, s.headRoot)
  {
    assert Sound(threshold, s.layout, s.roots[s.headRoot]);
  }

  /** primary(): the head root when it is tracked, else any root with the most votes. */
  predicate IsPrimary(s: SlotVotes, root: nat)
  {
    && root in s.roots
    && (s.headRoot in s.roots ==> root == s.headRoot)
    && (s.headRoot !in s.roots ==> forall r :: r in s.roots ==> s.roots[r].voteCount <= s.roots[root].voteCount)
  }

  // ----- one vote -----

  /** ms offset from the slot start + 1, clamped; 0 stands for no vote. */
  function VoteTimeOffset(slotStart: int, receivedAt: int): (t: nat)
    ensures 1 <= t <= 65535
    ensures receivedAt < slotStart ==> t == 1
    ensures slotStart <= receivedAt <= slotStart + 65534 ==> t == receivedAt - slotStart + 1
    ensures receivedAt > slotStart + 65534 ==> t == 65535
  {
    var offset := receivedAt - slotStart + 1;
    if offset < 1 then 1 else if offset > 65535 then 65535 else offset
  }

  function Voted(layout: Layout, rs: RootVotes, pos: nat, time: nat): RootVotes
    requires pos < |layout.weights| && pos < |rs.voteTimes|
  {
    if IsBitSet(rs.voteBits, pos) then rs
    else rs.(
      voteBits := SetBit(rs.voteBits, pos),
      voteTimes := rs.voteTimes[pos := time],
      participatingETH := rs.participatingETH + layout.weights[pos],
      voteCount := rs.voteCount + 1,
      dirty := true)
  }

  lemma VotedIsOk(layout: Layout, rs: RootVotes, pos: nat, time: nat)
    requires LayoutOk(layout) && RootOk(layout, rs) && pos < layout.totalMembers && time > 0
    ensures RootOk(layout, Voted(layout, rs, pos, time))
    ensures Members(Voted(layout, rs, pos, time).voteBits) == Members(rs.voteBits) + {pos}
  {
    InMembers(rs.voteBits, pos);
    if !IsBitSet(rs.voteBits, pos) {
      MembersOfSetBit(rs.voteBits, pos);
      WeightOfOneMore(layout.weights, Members(rs.voteBits), layout.totalMembers, pos);
    } else {
      assert Members(rs.voteBits) + {pos} == Members(rs.voteBits);
    }
  }

  lemma VoteTimeSet(layout: Layout, rs: RootVotes, vote: Vote, p: nat)
    requires LayoutOk(layout) && RootOk(layout, rs) && vote.pos < layout.totalMembers && p < layout.totalMembers
    ensures Voted(layout, rs, vote.pos, vote.time).voteTimes[p] ==
      if vote.pos == p && p !in Members(rs.voteBits) then vote.time else rs.voteTimes[p]
  {
    InMembers(rs.voteBits, vote.pos);
  }

  /** The arrival time kept is that of the first vote. */
  lemma {:induction false} FirstArrivalKept(layout: Layout, rs: RootVotes, votes: seq<Vote>, p: nat)
    requires LayoutOk(layout) && RootOk(layout, rs) && VotesOk(layout, votes) && p < layout.totalMembers
    ensures AfterVotes(layout, rs, votes).voteTimes[p] == if p in Members(rs.voteBits) then rs.voteTimes[p] else FirstTime(votes, p)
  {
    if votes == [] {
      assert p !in Members(rs.voteBits) ==> rs.voteTimes[p] == 0;
    } else {
      var n := |votes| - 1;
      FirstArrivalKept(layout, rs, votes[..n], p);
      AfterVotesMembers(layout, rs, votes[..n]);
      VoteTimeSet(layout, AfterVotes(layout, rs, votes[..n]), votes[n], p);
      FirstTimeOrNone(votes[..n], p);
    }
  }

  /** The time of the first vote for the position, 0 without one. */
  function FirstTime(votes: seq<Vote>, p: nat): nat
  {
    if votes == [] then 0
    else
      var first := FirstTime(votes[..|votes| - 1], p);
      if first == 0 && votes[|votes| - 1].pos == p then votes[|votes| - 1].time else first
  }

  lemma {:induction false} FirstTimeOrNone(votes: seq<Vote>, p: nat)
    requires forall i :: 0 <= i < |votes| ==> votes[i].time > 0
    ensures FirstTime(votes, p) == 0 <==> p !in PositionsOf(votes)
  {
    if votes != [] {
      var n := |votes| - 1;
      FirstTimeOrNone(votes[..n], p);
      PositionsOfLast(votes, n);
    }
  }

  datatype Vote = Vote(pos: nat, time: nat)

  ghost predicate VotesOk(layout: Layout, votes: seq<Vote>)
  {
    forall i :: 0 <= i < |votes| ==> votes[i].pos < layout.totalMembers && votes[i].time > 0
  }

  function AfterVotes(layout: Layout, rs: RootVotes, votes: seq<Vote>): (r: RootVotes)
    requires forall i :: 0 <= i < |votes| ==> votes[i].pos < |layout.weights| && votes[i].pos < |rs.voteTimes|
    ensures |r.voteTimes| == |rs.voteTimes|
  {
    if votes == [] then rs
    else
      var last := votes[|votes| - 1];
      Voted(layout, AfterVotes(layout, rs, votes[..|votes| - 1]), last.pos, last.time)
  }

  ghost function PositionsOf(votes: seq<Vote>): set<nat>
  {
    set i | 0 <= i < |votes| :: votes[i].pos
  }

  lemma {:induction false} AfterVotesMembers(layout: Layout, rs: RootVotes, votes: seq<Vote>)
    requires LayoutOk(layout) && RootOk(layout, rs) && VotesOk(layout, votes)
    ensures RootOk(layout, AfterVotes(layout, rs, votes))
    ensures Members(AfterVotes(layout, rs, votes).voteBits) == Members(rs.voteBits) + PositionsOf(votes)
  {
    if votes != [] {
      var n := |votes| - 1;
      AfterVotesMembers(layout, rs, votes[..n]);
      VotedIsOk(layout, AfterVotes(layout, rs, votes[..n]), votes[n].pos, votes[n].time);
      PositionsOfLast(votes, n);
    }
  }

  lemma PositionsOfLast(votes: seq<Vote>, n: nat)
    requires |votes| == n + 1
    ensures PositionsOf(votes) == PositionsOf(votes[..n]) + {votes[n].pos}
  {
    forall p
      ensures p in PositionsOf(votes) <==> p in PositionsOf(votes[..n]) || p == votes[n].pos
    {
      if p in PositionsOf(votes) {
        var i :| 0 <= i < |votes| && votes[i].pos == p;
        assert i < n ==> votes[..n][i].pos == p;
      }
      if p in PositionsOf(votes[..n]) {
        var i :| 0 <= i < n && votes[..n][i].pos == p;
        assert votes[i].pos == p;
      }
    }
  }

  /** Votes arriving in another order, or more than once, give the same bitmap, count and weight. */
  lemma VotesCommute(layout: Layout, rs: RootVotes, votes: seq<Vote>, votes': seq<Vote>)
    requires LayoutOk(layout) && RootOk(layout, rs) && VotesOk(layout, votes) && VotesOk(layout, votes')
    requires PositionsOf(votes) == PositionsOf(votes')
    ensures AfterVotes(layout, rs, votes).voteBits == AfterVotes(layout, rs, votes').voteBits
    ensures AfterVotes(layout, rs, votes).voteCount == AfterVotes(layout, rs, votes').voteCount
    ensures AfterVotes(layout, rs, votes).participatingETH == AfterVotes(layout, rs, votes').participatingETH
  {
    AfterVotesMembers(layout, rs, votes);
    AfterVotesMembers(layout, rs, votes');
    SameMembers(AfterVotes(layout, rs, votes).voteBits, AfterVotes(layout, rs, votes').voteBits);
  }

  // ----- tracked roots -----

  function Zeros<T>(n: nat, zero: T): seq<T>
  {
    seq(n, _ => zero)
  }

  function FreshRoot(layout: Layout): RootVotes
  {
    RootVotes(Zeros((layout.totalMembers + 7) / 8, 0), Zeros(layout.totalMembers, 0), None, 0, 0, 0.0, false, false)
  }

  lemma {:induction false} NoWeight(weights: seq<nat>, n: nat)
    requires n <= |weights|
    ensures WeightOf(weights, {}, n) == 0
  {
    if n > 0 {
      NoWeight(weights, n - 1);
    }
  }

  lemma NoMembers(bits: seq<bv8>)
    ensures Members(bits) == {} <==> bits == Zeros(|bits|, 0)
  {
    forall p: nat
      ensures p !in Members(Zeros(|bits|, 0))
    {
      InMembers(Zeros(|bits|, 0), p);
    }
    assert Members(Zeros(|bits|, 0)) == {};
    if Members(bits) == {} {
      SameMembers(bits, Zeros(|bits|, 0));
    }
  }

  lemma FreshRootIsOk(threshold: nat, layout: Layout)
    requires LayoutOk(layout)
    ensures Sound(threshold, layout, FreshRoot(layout)) && Members(FreshRoot(layout).voteBits) == {}
    ensures !Crossed(threshold, layout, FreshRoot(layout))
  {
    NoMembers(FreshRoot(layout).voteBits);
    NoWeight(layout.weights, layout.totalMembers);
  }

  /** getOrCreateRootState: the root is tracked afterwards unless four others are. */
  function WithRoot(s: SlotVotes, root: nat): SlotVotes
  {
    if root in s.roots || |s.roots| >= MAX_TRACKED_ROOTS then s else s.(roots := s.roots[root := FreshRoot(s.layout)])
  }

  ghost function Voters(s: SlotVotes, root: nat): set<nat>
  {
    if root in s.roots then Members(s.roots[root].voteBits) else {}
  }

  lemma WithRootIsOk(threshold: nat, s: SlotVotes, root: nat)
    requires RootsOk(threshold, s)
    ensures RootsOk(threshold, WithRoot(s, root))
    ensures HeadSettled(threshold, s) ==> HeadSettled(threshold, WithRoot(s, root))
    ensures forall r :: Voters(WithRoot(s, root), r) == Voters(s, r)
    ensures root in WithRoot(s, root).roots <==> root in s.roots || |s.roots| < MAX_TRACKED_ROOTS
  {
    FreshRootIsOk(threshold, s.layout);
    var s' := WithRoot(s, root);
    forall r | r in s'.roots
      ensures Sound(threshold, s'.layout, s'.roots[r])
    {
      assert r in s.roots ==> Sound(threshold, s.layout, s.roots[r]);
    }
  }

  /** One tracked root changes, the others and the layout stay. */
  lemma ReplacedRootIsOk(threshold: nat, s: SlotVotes, root: nat, rs: RootVotes)
    requires RootsOk(threshold, s) && root in s.roots && Sound(threshold, s.layout, rs)
    ensures RootsOk(threshold, s.(roots := s.roots[root := rs]))
    ensures forall r :: r != root ==> Voters(s.(roots := s.roots[root := rs]), r) == Voters(s, r)
  {
    var s' := s.(roots := s.roots[root := rs]);
    assert s'.roots.Keys == s.roots.Keys;
    forall r | r in s'.roots
      ensures Sound(threshold, s'.layout, s'.roots[r])
    {
      assert r != root ==> Sound(threshold, s.layout, s.roots[r]);
    }
  }

  function WithVote(s: SlotVotes, root: nat, pos: nat, time: nat): SlotVotes
    requires root in s.roots && pos < |s.layout.weights| && pos < |s.roots[root].voteTimes|
  {
    s.(roots := s.roots[root := Voted(s.layout, s.roots[root], pos, time)])
  }

  lemma WithVoteIsOk(threshold: nat, s: SlotVotes, root: nat, pos: nat, time: nat)
    requires SlotOk(threshold, s) && root in s.roots && pos < s.layout.totalMembers && time > 0
    ensures pos < |s.roots[root].voteTimes|
    ensures RootsOk(threshold, WithVote(s, root, pos, time)) && HeadTracked(WithVote(s, root, pos, time))
    ensures root != s.headRoot ==> HeadSettled(threshold, WithVote(s, root, pos, time))
    ensures forall r :: Voters(WithVote(s, root, pos, time), r) == Voters(s, r) + if r == root then {pos} else {}
  {
    var rs, layout := s.roots[root], s.layout;
    assert Sound(threshold, layout, rs);
    var rs' := Voted(layout, rs, pos, time);
    VotedIsOk(layout, rs, pos, time);
    PctMonotone(layout, rs.participatingETH, rs'.participatingETH);
    ReplacedRootIsOk(threshold, s, root, rs');
  }

  /** fire(), as far as the root's own state goes. */
  function Fired(s: SlotVotes, root: nat, byThreshold: bool): SlotVotes
    requires root in s.roots
  {
    var rs := s.roots[root];
    s.(roots := s.roots[root := rs.(
      lastFiredPct := Pct(s.layout, rs.participatingETH),
      thresholdFired := rs.thresholdFired || byThreshold,
      dirty := false)])
  }

  predicate MustFire(threshold: nat, s: SlotVotes, root: nat, primary: nat)
    requires root in s.roots
  {
    !s.roots[root].thresholdFired && root == primary && Crossed(threshold, s.layout, s.roots[root])
  }

  function MaybeFired(threshold: nat, s: SlotVotes, root: nat, primary: nat): SlotVotes
    requires root in s.roots
  {
    if MustFire(threshold, s, root, primary) then Fired(s, root, true) else s
  }

  lemma FiredIsOk(threshold: nat, s: SlotVotes, root: nat, byThreshold: bool)
    requires RootsOk(threshold, s) && root in s.roots && (byThreshold ==> Crossed(threshold, s.layout, s.roots[root]))
    ensures RootsOk(threshold, Fired(s, root, byThreshold))
    ensures HeadTracked(s) ==> HeadTracked(Fired(s, root, byThreshold))
    ensures HeadSettled(threshold, s) ==> HeadSettled(threshold, Fired(s, root, byThreshold))
    ensures forall r :: Voters(Fired(s, root, byThreshold), r) == Voters(s, r)
  {
    assert Sound(threshold, s.layout, s.roots[root]);
    ReplacedRootIsOk(threshold, s, root, Fired(s, root, byThreshold).roots[root]);
  }

  /** maybeFireThreshold after a change to the root: the head is settled again. */
  lemma MaybeFiredIsOk(threshold: nat, s: SlotVotes, root: nat, primary: nat)
    requires RootsOk(threshold, s) && HeadTracked(s) && root in s.roots && IsPrimary(s, primary)
    requires root != s.headRoot ==> HeadSettled(threshold, s)
    ensures SlotOk(threshold, MaybeFired(threshold, s, root, primary))
    ensures forall r :: Voters(MaybeFired(threshold, s, root, primary), r) == Voters(s, r)
  {
    if MustFire(threshold, s, root, primary) {
      FiredIsOk(threshold, s, root, true);
    }
  }

  // ----- a new head -----

  predicate LeastVoted(s: SlotVotes, victim: nat)
  {
    victim in s.roots && forall r :: r in s.roots ==> s.roots[victim].voteCount <= s.roots[r].voteCount
  }

  /** The head is named and tracked, in place of the victim when four other roots were tracked. */
  function WithHead(s: SlotVotes, block: nat, victim: nat): SlotVotes
  {
    var named := s.(headRoot := block);
    if block in s.roots || |s.roots| < MAX_TRACKED_ROOTS then WithRoot(named, block)
    else WithRoot(named.(roots := named.roots - {victim}), block)
  }

  lemma WithHeadIsOk(threshold: nat, s: SlotVotes, block: nat, victim: nat)
    requires SlotOk(threshold, s) && (s.roots == map[] || LeastVoted(s, victim))
    ensures var s' := WithHead(s, block, victim);
      && RootsOk(threshold, s') && s'.headRoot == block && block in s'.roots && s'.layout == s.layout
      && (forall r :: r in s'.roots ==> Voters(s', r) == Voters(s, r))
      && (forall r :: r in s.roots && r !in s'.roots ==>
            r == victim && LeastVoted(s, r) && block !in s.roots && |s.roots| == MAX_TRACKED_ROOTS)
  {
    var named := s.(headRoot := block);
    if block in s.roots || |s.roots| < MAX_TRACKED_ROOTS {
      assert RootsOk(threshold, named) by { RootsOkSubset(threshold, s, named); }
      WithRootIsOk(threshold, named, block);
      assert forall r :: r in named.roots ==> Voters(named, r) == Voters(s, r);
    } else {
      var fewer := named.(roots := named.roots - {victim});
      assert fewer.roots.Keys == s.roots.Keys - {victim};
      RootsOkSubset(threshold, s, fewer);
      WithRootIsOk(threshold, fewer, block);
      assert forall r :: r in fewer.roots ==> Voters(fewer, r) == Voters(s, r);
    }
  }

  function Dirtied(s: SlotVotes, root: nat): SlotVotes
    requires root in s.roots
  {
    s.(roots := s.roots[root := s.roots[root].(dirty := true)])
  }

  lemma DirtiedIsOk(threshold: nat, s: SlotVotes, root: nat)
    requires SlotOk(threshold, s) && root in s.roots
    ensures SlotOk(threshold, Dirtied(s, root))
    ensures forall r :: Voters(Dirtied(s, root), r) == Voters(s, r)
  {
    assert Sound(threshold, s.layout, s.roots[root]);
    ReplacedRootIsOk(threshold, s, root, Dirtied(s, root).roots[root]);
  }

  /** The rest of handleHeadEvent for a head that is tracked. */
  function HeadChecked(threshold: nat, s: SlotVotes, block: nat): SlotVotes
    requires block in s.roots
  {
    var settled := MaybeFired(threshold, s, block, block);
    if settled.roots[block].voteCount > 0 then Dirtied(settled, block) else settled
  }

  lemma HeadCheckedIsOk(threshold: nat, s: SlotVotes, block: nat)
    requires RootsOk(threshold, s) && s.headRoot == block && block in s.roots
    ensures var s' := HeadChecked(threshold, s, block);
      && SlotOk(threshold, s') && s'.headRoot == block && s'.layout == s.layout && s'.roots.Keys == s.roots.Keys
      && forall r :: Voters(s', r) == Voters(s, r)
  {
    MaybeFiredIsOk(threshold, s, block, block);
    DirtiedIsOk(threshold, MaybeFired(threshold, s, block, block), block);
  }

  /**
   An announced root that a new head evicts starts over: once it is head again, any votes that weigh enough, in whatever
   order, make the threshold check fire for it a second time.
   */
  lemma FiresAgain(threshold: nat, s: SlotVotes, root: nat, block: nat, victim: nat, votes: seq<Vote>)
    requires SlotOk(threshold, s) && |s.roots| == MAX_TRACKED_ROOTS && LeastVoted(s, root) && block !in s.roots
    requires LeastVoted(WithHead(s, block, root), victim)
    requires VotesOk(s.layout, votes) && VotesMeet(threshold, s.layout, PositionsOf(votes))
    ensures root !in WithHead(s, block, root).roots
    ensures var again := WithHead(WithHead(s, block, root), root, victim);
      && root in again.roots && again.headRoot == root && again.layout == s.layout && again.roots[root] == FreshRoot(s.layout)
      && |again.roots[root].voteTimes| == s.layout.totalMembers
      && MustFire(threshold, again.(roots := again.roots[root := AfterVotes(s.layout, again.roots[root], votes)]), root, root)
  {
    HeadStartsOver(s, root, block, victim);
    FreshRootIsOk(threshold, s.layout);
    AfterVotesMembers(s.layout, FreshRoot(s.layout), votes);
    assert {} + PositionsOf(votes) == PositionsOf(votes);
    AfterVotesKeepFlag(s.layout, FreshRoot(s.layout), votes);
  }

  lemma HeadStartsOver(s: SlotVotes, root: nat, block: nat, victim: nat)
    requires |s.roots| == MAX_TRACKED_ROOTS && root in s.roots && block !in s.roots
    requires victim in WithHead(s, block, root).roots
    ensures root !in WithHead(s, block, root).roots
    ensures var again := WithHead(WithHead(s, block, root), root, victim);
      root in again.roots && again.headRoot == root && again.layout == s.layout && again.roots[root] == FreshRoot(s.layout)
  {
    var s1 := WithHead(s, block, root);
    var fewer := s.roots - {root};
    assert fewer.Keys == s.roots.Keys - {root};
    assert s1.roots.Keys == fewer.Keys + {block};
    var fewer1 := s1.roots - {victim};
    assert fewer1.Keys == s1.roots.Keys - {victim};
    assert WithHead(s1, root, victim).roots == fewer1[root := FreshRoot(s.layout)];
  }

  lemma {:induction false} AfterVotesKeepFlag(layout: Layout, rs: RootVotes, votes: seq<Vote>)
    requires forall i :: 0 <= i < |votes| ==> votes[i].pos < |layout.weights| && votes[i].pos < |rs.voteTimes|
    ensures AfterVotes(layout, rs, votes).thresholdFired == rs.thresholdFired
  {
    if votes != [] {
      AfterVotesKeepFlag(layout, rs, votes[..|votes| - 1]);
    }
  }

  // ----- when an announced root cannot be evicted -----

  /** Every member of the slot has voted for one of the tracked roots at most. */
  ghost predicate OneRootEach(s: SlotVotes)
  {
    forall r, r' :: r in s.roots && r' in s.roots && r != r' ==> Voters(s, r) !! Voters(s, r')
  }

  ghost predicate WeightsBetween(weights: seq<nat>, low: nat, high: nat)
  {
    forall i :: 0 <= i < |weights| ==> low <= weights[i] <= high
  }

  lemma OneMoreTimes(n: nat, count: nat)
    ensures (n + 1) * count == n * count + count
  {
  }

  lemma {:induction false} SumAtLeast(weights: seq<nat>, low: nat, high: nat)
    requires WeightsBetween(weights, low, high)
    ensures Sum(weights) >= |weights| * low
  {
    if weights != [] {
      SumAtLeast(weights[..|weights| - 1], low, high);
      OneMoreTimes(|weights| - 1, low);
    }
  }

  lemma {:induction false} WeightAtMost(weights: seq<nat>, low: nat, high: nat, voters: set<nat>, n: nat)
    requires n <= |weights| && Within(voters, n) && WeightsBetween(weights, low, high)
    ensures WeightOf(weights, voters, n) <= |voters| * high
  {
    if n > 0 {
      var fewer := voters - {n - 1};
      WeightAtMost(weights, low, high, fewer, n - 1);
      if n - 1 in voters {
        assert fewer + {n - 1} == voters;
        WeightOfOneMore(weights, fewer, n, n - 1);
        OneMoreTimes(|fewer|, high);
      } else {
        assert fewer == voters;
      }
    }
  }

  ghost predicate InSome(sets: map<nat, set<nat>>, keys: set<nat>, p: nat)
  {
    exists r :: r in keys && r in sets && p in sets[r]
  }

  /** Disjoint sets of at least `count` positions each, taken together. */
  lemma {:induction false} Together(sets: map<nat, set<nat>>, keys: set<nat>, n: nat, count: nat) returns (all: set<nat>)
    requires keys <= sets.Keys && forall r, r' :: r in sets && r' in sets && r != r' ==> sets[r] !! sets[r']
    requires forall r :: r in keys ==> Within(sets[r], n) && |sets[r]| >= count
    ensures Within(all, n) && |all| >= |keys| * count && forall p :: p in all ==> InSome(sets, keys, p)
  {
    all := {};
    if keys != {} {
      var r :| r in keys;
      var rest := Together(sets, keys - {r}, n, count);
      Joined(sets, keys, r, rest);
      all := rest + sets[r];
      OneKeyMore(keys, r, count);
    }
  }

  lemma OneKeyMore(keys: set<nat>, r: nat, count: nat)
    requires r in keys
    ensures |keys| * count == |keys - {r}| * count + count
  {
    assert |keys| == |keys - {r}| + 1;
    OneMoreTimes(|keys - {r}|, count);
  }

  lemma Joined(sets: map<nat, set<nat>>, keys: set<nat>, r: nat, rest: set<nat>)
    requires r in keys && keys <= sets.Keys && forall r, r' :: r in sets && r' in sets && r != r' ==> sets[r] !! sets[r']
    requires forall p :: p in rest ==> InSome(sets, keys - {r}, p)
    ensures |rest + sets[r]| == |rest| + |sets[r]| && forall p :: p in rest + sets[r] ==> InSome(sets, keys, p)
  {
    forall p | p in rest
      ensures InSome(sets, keys, p) && p !in sets[r]
    {
      assert InSome(sets, keys - {r}, p);
    }
  }

  /** With four roots tracked, the least-voted one has at most a quarter of the members. */
  lemma LeastVotedShare(threshold: nat, s: SlotVotes, victim: nat)
    requires RootsOk(threshold, s) && OneRootEach(s) && LeastVoted(s, victim) && |s.roots| == MAX_TRACKED_ROOTS
    ensures 4 * s.roots[victim].voteCount <= s.layout.totalMembers
  {
    var sets := map r | r in s.roots :: Voters(s, r);
    forall r | r in s.roots
      ensures Within(sets[r], s.layout.totalMembers) && |sets[r]| >= s.roots[victim].voteCount
    {
      assert Sound(threshold, s.layout, s.roots[r]);
    }
    var all := Together(sets, s.roots.Keys, s.layout.totalMembers, s.roots[victim].voteCount);
    WithinIsSmall(all, s.layout.totalMembers);
    assert |s.roots.Keys| == |s.roots|;
  }

  /**
   If every member votes for one root only and the threshold is above a quarter, by as much as the weights differ, the root
   that has to go for a new head has not reached it.
   */
  lemma LeastVotedNotCrossed(threshold: nat, s: SlotVotes, victim: nat, low: nat, high: nat)
    requires RootsOk(threshold, s) && OneRootEach(s) && LeastVoted(s, victim) && |s.roots| == MAX_TRACKED_ROOTS
    requires WeightsBetween(s.layout.weights, low, high) && threshold * low > 25 * high
    ensures !Crossed(threshold, s.layout, s.roots[victim])
  {
    var rs, layout := s.roots[victim], s.layout;
    assert Sound(threshold, layout, rs);
    LeastVotedShare(threshold, s, victim);
    SumAtLeast(layout.weights, low, high);
    WeightAtMost(layout.weights, low, high, Members(rs.voteBits), layout.totalMembers);
    if layout.totalSlotETH > 0 {
      BelowShare(rs.participatingETH, layout.totalSlotETH, rs.voteCount, layout.totalMembers, threshold, low, high);
      PctBelow(layout, rs.participatingETH, threshold);
    }
  }

  lemma BelowShare(weight: nat, total: nat, count: nat, members: nat, threshold: nat, low: nat, high: nat)
    requires weight <= count * high && members * low <= total && 4 * count <= members && threshold * low > 25 * high
    requires total > 0
    ensures 100 * weight < threshold * total
  {
    assert 100 * weight <= 25 * high * members by {
      assert (4 * count) * high <= members * high;
    }
    assert threshold * total >= threshold * low * members by {
      assert threshold * (members * low) <= threshold * total;
    }
    if members == 0 {
      assert weight == 0 && threshold * total > 0;
    } else {
      assert (threshold * low - 25 * high) * members > 0;
    }
  }

  lemma PctBelow(layout: Layout, weight: nat, threshold: nat)
    requires layout.totalSlotETH > 0 && 100 * weight < threshold * layout.totalSlotETH
    ensures Pct(layout, weight) < threshold as real
  {
    var w, t, total := weight as real, threshold as real, layout.totalSlotETH as real;
    assert w * 100.0 < t * total;
    assert w / total * 100.0 == w * 100.0 / total;
    assert t * total / total == t;
  }

  lemma RootsOkSubset(threshold: nat, s: SlotVotes, s': SlotVotes)
    requires RootsOk(threshold, s) && s'.layout == s.layout && s'.roots.Keys <= s.roots.Keys
    requires forall r :: r in s'.roots ==> s'.roots[r] == s.roots[r]
    ensures RootsOk(threshold, s')
  {
    SubsetSize(s'.roots.Keys, s.roots.Keys);
    forall r | r in s'.roots
      ensures Sound(threshold, s'.layout, s'.roots[r])
    {
      assert Sound(threshold, s.layout, s.roots[r]);
    }
  }
}
