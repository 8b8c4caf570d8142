/**
 Aggregate attestations (walkAggregateBits of pkg/chain/headvotes.go): the positions a walk visits are those of the
 attesters that get_attesting_indices of the consensus specification names.
 */
module AggregateBits {
  import opened Common
  import opened VoteBits

  /** committeeBits is None before Electra, when index names the committee. */
  datatype Attestation = Attestation(
    slot: nat,
    root: nat,
    aggregationBits: seq<bv8>,
    committeeBits: Option<seq<bv8>>,
    index: nat)

  /** An attestation's bitmaps as the positions that they hold. */
  datatype Claims = Claims(aggregation: set<nat>, selected: Option<set<nat>>, index: nat)

  ghost function ClaimsOf(att: Attestation): Claims
  {
    Claims(
      Members(att.aggregationBits),
      if att.committeeBits.Some? then Some(Members(att.committeeBits.value)) else None,
      att.index)
  }

  // ----- the reference: get_attesting_indices -----

  /** The attesters of the committees from c on, the aggregation bits of which start at committeeOffset. */
  ghost function AttestingFrom(committees: seq<seq<nat>>, aggregation: set<nat>, selected: set<nat>, c: nat, committeeOffset: nat): set<nat>
    decreases |committees| - c
  {
    if c >= |committees| then {}
    else if c !in selected then AttestingFrom(committees, aggregation, selected, c + 1, committeeOffset)
    else
      CommitteeAttesters(committees[c], aggregation, committeeOffset) +
      AttestingFrom(committees, aggregation, selected, c + 1, committeeOffset + |committees[c]|)
  }

  ghost function CommitteeAttesters(committee: seq<nat>, aggregation: set<nat>, committeeOffset: nat): set<nat>
  {
    set j | 0 <= j < |committee| && committeeOffset + j in aggregation :: committee[j]
  }

  ghost function AttestingIndices(committees: seq<seq<nat>>, att: Claims): set<nat>
  {
    match att.selected
    case Some(selected) => AttestingFrom(committees, att.aggregation, selected, 0, 0)
    case None =>
      if att.index < |committees| then CommitteeAttesters(committees[att.index], att.aggregation, 0) else {}
  }

  // ----- the walk -----

  /** Where the aggregation bits of committee c start. */
  function BitBase(sizes: seq<nat>, selected: set<nat>, c: nat): nat
    requires c <= |sizes|
  {
    if c == 0 then 0 else BitBase(sizes, selected, c - 1) + if c - 1 in selected then sizes[c - 1] else 0
  }

  /** Position p belongs to committee c, and the walk visits it there. */
  predicate VisitedIn(layout: Layout, att: Claims, c: int, p: nat)
    requires |layout.offsets| == |layout.sizes|
  {
    && 0 <= c < |layout.sizes| && layout.offsets[c] <= p < layout.offsets[c] + layout.sizes[c]
    && match att.selected
       case Some(selected) => c in selected && BitBase(layout.sizes, selected, c) + p - layout.offsets[c] in att.aggregation
       case None => c == att.index && p - layout.offsets[c] in att.aggregation
  }

  ghost predicate Visited(layout: Layout, att: Claims, p: nat)
    requires |layout.offsets| == |layout.sizes|
  {
    exists c :: VisitedIn(layout, att, c, p)
  }

  /** The layout is one that BuildCommitteeLayout computes. */
  ghost predicate LayoutShape(layout: Layout)
  {
    && |layout.offsets| == |layout.sizes|
    && (forall c :: 0 <= c < |layout.sizes| ==> layout.offsets[c] + layout.sizes[c] <= layout.totalMembers)
  }

  lemma LayoutHasShape(layout: Layout, committees: seq<seq<nat>>, active: seq<nat>, balances: seq<nat>)
    requires IsLayout(layout, committees, active, balances)
    ensures LayoutShape(layout)
  {
    forall c | 0 <= c < |committees|
      ensures layout.offsets[c] + layout.sizes[c] <= layout.totalMembers
    {
      FlatGrows(committees, c, |committees|);
      assert committees[..|committees|] == committees;
    }
  }

  /** The walk over the first n committees visits position p. */
  predicate VisitedBelow(layout: Layout, att: Claims, n: nat, p: nat)
    requires |layout.offsets| == |layout.sizes|
  {
    n > 0 && (VisitedBelow(layout, att, n - 1, p) || VisitedIn(layout, att, n - 1, p))
  }

  lemma {:induction false} VisitedBelowAll(layout: Layout, att: Claims, n: nat, p: nat)
    requires |layout.offsets| == |layout.sizes|
    ensures VisitedBelow(layout, att, n, p) <==> exists c :: c < n && VisitedIn(layout, att, c, p)
  {
    if n > 0 {
      VisitedBelowAll(layout, att, n - 1, p);
    }
  }

  /** Sets the bit of every visited position. */
  method MarkAttesters(layout: Layout, att: Attestation, bitmap0: seq<bv8>) returns (bitmap: seq<bv8>)
    requires LayoutShape(layout) && layout.totalMembers <= 8 * |bitmap0|
    ensures |bitmap| == |bitmap0|
    ensures forall p: nat :: p in Members(bitmap) <==> p in Members(bitmap0) || Visited(layout, ClaimsOf(att), p)
  {
    bitmap := bitmap0;
    if att.committeeBits.Some? {
      bitmap := MarkSelected(layout, att, bitmap0);
    } else if att.index < |layout.sizes| {
      bitmap := MarkCommittee(att.aggregationBits, layout.offsets[att.index], layout.sizes[att.index], 0, bitmap);
      assert forall p: nat :: Visited(layout, ClaimsOf(att), p) <==> VisitedIn(layout, ClaimsOf(att), att.index, p);
    }
  }

  method MarkSelected(layout: Layout, att: Attestation, bitmap0: seq<bv8>) returns (bitmap: seq<bv8>)
    requires LayoutShape(layout) && layout.totalMembers <= 8 * |bitmap0| && att.committeeBits.Some?
    ensures |bitmap| == |bitmap0|
    ensures forall p: nat :: p in Members(bitmap) <==> p in Members(bitmap0) || Visited(layout, ClaimsOf(att), p)
  {
    bitmap := bitmap0;
    ghost var claims := ClaimsOf(att);
    var aggBitPos := 0;
    for ci := 0 to |layout.sizes|
      invariant |bitmap| == |bitmap0|
      invariant aggBitPos == BitBase(layout.sizes, claims.selected.value, ci)
      invariant forall p: nat :: p in Members(bitmap) <==> p in Members(bitmap0) || VisitedBelow(layout, claims, ci, p)
    {
      InMembers(att.committeeBits.value, ci);
      if IsBitSet(att.committeeBits.value, ci) {
        bitmap := MarkCommittee(att.aggregationBits, layout.offsets[ci], layout.sizes[ci], aggBitPos, bitmap);
        aggBitPos := aggBitPos + layout.sizes[ci];
      }
    }
    forall p: nat
      ensures VisitedBelow(layout, claims, |layout.sizes|, p) <==> Visited(layout, claims, p)
    {
      VisitedBelowAll(layout, claims, |layout.sizes|, p);
    }
  }

  /** The first j members of the committee are marked as the aggregation bits say. */
  ghost predicate MarkedUpTo(aggregation: seq<bv8>, offset: nat, j: nat, bitBase: nat, bitmap0: seq<bv8>, bitmap: seq<bv8>)
  {
    && |bitmap| == |bitmap0|
    && forall p: nat :: p in Members(bitmap) <==>
      p in Members(bitmap0) || (offset <= p < offset + j && bitBase + p - offset in Members(aggregation))
  }

  lemma MarkOneMore(aggregation: seq<bv8>, offset: nat, j: nat, bitBase: nat, bitmap0: seq<bv8>, bitmap: seq<bv8>)
    requires MarkedUpTo(aggregation, offset, j, bitBase, bitmap0, bitmap) && offset + j < 8 * |bitmap|
    ensures var bitmap' := if IsBitSet(aggregation, bitBase + j) then SetBit(bitmap, offset + j) else bitmap;
      MarkedUpTo(aggregation, offset, j + 1, bitBase, bitmap0, bitmap')
  {
    InMembers(aggregation, bitBase + j);
    MembersOfSetBit(bitmap, offset + j);
  }

  method MarkCommittee(aggregation: seq<bv8>, offset: nat, size: nat, bitBase: nat, bitmap0: seq<bv8>) returns (bitmap: seq<bv8>)
    requires offset + size <= 8 * |bitmap0|
    ensures |bitmap| == |bitmap0|
    ensures forall p: nat :: p in Members(bitmap) <==>
      p in Members(bitmap0) || (offset <= p < offset + size && bitBase + p - offset in Members(aggregation))
  {
    bitmap := bitmap0;
    for j := 0 to size
      invariant MarkedUpTo(aggregation, offset, j, bitBase, bitmap0, bitmap)
    {
      MarkOneMore(aggregation, offset, j, bitBase, bitmap0, bitmap);
      if IsBitSet(aggregation, bitBase + j) {
        bitmap := SetBit(bitmap, offset + j);
      }
    }
  }

  // ----- the walk visits exactly the attesters -----

  ghost predicate AttestsIn(committees: seq<seq<nat>>, sizes: seq<nat>, aggregation: set<nat>, selected: set<nat>, c: nat, m: nat)
    requires |sizes| == |committees|
  {
    && c < |committees| && c in selected
    && m in CommitteeAttesters(committees[c], aggregation, BitBase(sizes, selected, c))
  }

  lemma {:induction false} AttestingHas(committees: seq<seq<nat>>, sizes: seq<nat>, aggregation: set<nat>, selected: set<nat>,
      c: nat, i: nat, m: nat)
    requires |sizes| == |committees| && forall i :: 0 <= i < |committees| ==> sizes[i] == |committees[i]|
    requires c <= i && AttestsIn(committees, sizes, aggregation, selected, i, m)
    ensures m in AttestingFrom(committees, aggregation, selected, c, BitBase(sizes, selected, c))
    decreases |committees| - c
  {
    if c < i {
      AttestingHas(committees, sizes, aggregation, selected, c + 1, i, m);
    }
  }

  lemma {:induction false} AttestingHasNoOther(committees: seq<seq<nat>>, sizes: seq<nat>, aggregation: set<nat>, selected: set<nat>,
      c: nat, m: nat) returns (i: nat)
    requires |sizes| == |committees| && forall i :: 0 <= i < |committees| ==> sizes[i] == |committees[i]|
    requires c <= |committees| && m in AttestingFrom(committees, aggregation, selected, c, BitBase(sizes, selected, c))
    ensures AttestsIn(committees, sizes, aggregation, selected, i, m)
    decreases |committees| - c
  {
    if AttestsIn(committees, sizes, aggregation, selected, c, m) {
      i := c;
    } else {
      i := AttestingHasNoOther(committees, sizes, aggregation, selected, c + 1, m);
    }
  }

  // ----- the aggregation bits lie over the selected committees, end to end -----

  ghost function Chosen(committees: seq<seq<nat>>, selected: set<nat>): seq<seq<nat>>
  {
    if committees == [] then []
    else
      var n := |committees| - 1;
      Chosen(committees[..n], selected) + if n in selected then [committees[n]] else []
  }

  ghost predicate HasBitFor(members: seq<nat>, aggregation: set<nat>, m: nat)
  {
    exists j :: 0 <= j < |members| && j in aggregation && members[j] == m
  }

  ghost predicate AttestsBelow(committees: seq<seq<nat>>, sizes: seq<nat>, aggregation: set<nat>, selected: set<nat>, n: nat, m: nat)
    requires |sizes| == |committees|
  {
    exists c: nat :: c < n && AttestsIn(committees, sizes, aggregation, selected, c, m)
  }

  /** The members selected by the first n committees, one after the other, have their bits at their places. */
  lemma {:induction false} ChosenBelow(committees: seq<seq<nat>>, sizes: seq<nat>, aggregation: set<nat>, selected: set<nat>,
      n: nat, m: nat)
    requires |sizes| == |committees| && forall i :: 0 <= i < |committees| ==> sizes[i] == |committees[i]|
    requires n <= |committees|
    ensures |Flat(Chosen(committees[..n], selected))| == BitBase(sizes, selected, n)
    ensures HasBitFor(Flat(Chosen(committees[..n], selected)), aggregation, m) <==>
      AttestsBelow(committees, sizes, aggregation, selected, n, m)
  {
    if n > 0 {
      ChosenBelow(committees, sizes, aggregation, selected, n - 1, m);
      LastChosen(committees, selected, n);
      if n - 1 in selected {
        BitsOfConcat(Flat(Chosen(committees[..n - 1], selected)), committees[n - 1], aggregation, m);
      }
      assert AttestsBelow(committees, sizes, aggregation, selected, n, m) <==>
        AttestsBelow(committees, sizes, aggregation, selected, n - 1, m)
        || AttestsIn(committees, sizes, aggregation, selected, n - 1, m);
    }
  }

  lemma LastChosen(committees: seq<seq<nat>>, selected: set<nat>, n: nat)
    requires 0 < n <= |committees|
    ensures Flat(Chosen(committees[..n], selected))
         == Flat(Chosen(committees[..n - 1], selected)) + if n - 1 in selected then committees[n - 1] else []
  {
    assert committees[..n][..n - 1] == committees[..n - 1];
    var chosen := Chosen(committees[..n - 1], selected);
    assert (chosen + [committees[n - 1]])[..|chosen|] == chosen;
    assert Flat(chosen) + [] == Flat(chosen) && chosen + [] == chosen;
  }

  lemma BitsOfConcat(a: seq<nat>, b: seq<nat>, aggregation: set<nat>, m: nat)
    ensures HasBitFor(a + b, aggregation, m) <==> HasBitFor(a, aggregation, m) || m in CommitteeAttesters(b, aggregation, |a|)
  {
    if HasBitFor(a, aggregation, m) {
      var j :| 0 <= j < |a| && j in aggregation && a[j] == m;
      assert (a + b)[j] == m;
    }
    if m in CommitteeAttesters(b, aggregation, |a|) {
      var j :| 0 <= j < |b| && |a| + j in aggregation && b[j] == m;
      assert (a + b)[|a| + j] == m;
    }
  }

  /** get_attesting_indices: the bits are those of the selected committees' members, one committee after the other. */
  lemma AttestersHaveBits(committees: seq<seq<nat>>, att: Claims, m: nat)
    ensures att.selected.Some? ==>
      (m in AttestingIndices(committees, att) <==> HasBitFor(Flat(Chosen(committees, att.selected.value)), att.aggregation, m))
    ensures att.selected.None? ==>
      (m in AttestingIndices(committees, att) <==>
         att.index < |committees| && HasBitFor(committees[att.index], att.aggregation, m))
  {
    if att.selected.Some? {
      var selected := att.selected.value;
      var sizes := seq(|committees|, i requires 0 <= i < |committees| => |committees[i]|);
      ChosenBelow(committees, sizes, att.aggregation, selected, |committees|, m);
      assert committees[..|committees|] == committees;
      if m in AttestingIndices(committees, att) {
        var c := AttestingHasNoOther(committees, sizes, att.aggregation, selected, 0, m);
      }
      if c: nat :| c < |committees| && AttestsIn(committees, sizes, att.aggregation, selected, c, m) {
        AttestingHas(committees, sizes, att.aggregation, selected, 0, c, m);
      }
    } else if att.index < |committees| {
      BitsOfConcat([], committees[att.index], att.aggregation, m);
      assert [] + committees[att.index] == committees[att.index];
    }
  }

  /** A member attests according to the reference exactly when the walk visits a position of it. */
  lemma VisitsExactlyTheAttesters(layout: Layout, committees: seq<seq<nat>>, active: seq<nat>, balances: seq<nat>,
      att: Claims, m: nat)
    requires IsLayout(layout, committees, active, balances)
    ensures m in AttestingIndices(committees, att) <==>
      exists p: nat :: p < layout.totalMembers && Visited(layout, att, p) && Flat(committees)[p] == m
  {
    LayoutHasShape(layout, committees, active, balances);
    if m in AttestingIndices(committees, att) {
      var p := AttesterIsVisited(layout, committees, active, balances, att, m);
    }
    forall p: nat | p < layout.totalMembers && Visited(layout, att, p) && Flat(committees)[p] == m
      ensures m in AttestingIndices(committees, att)
    {
      var c :| VisitedIn(layout, att, c, p);
      VisitedAttests(layout, committees, active, balances, att, c, p);
    }
  }

  lemma AttesterIsVisited(layout: Layout, committees: seq<seq<nat>>, active: seq<nat>, balances: seq<nat>,
      att: Claims, m: nat) returns (p: nat)
    requires IsLayout(layout, committees, active, balances) && m in AttestingIndices(committees, att)
    ensures p < layout.totalMembers && Visited(layout, att, p) && Flat(committees)[p] == m
  {
    var c, base := att.index, 0;
    if att.selected.Some? {
      c := AttestingHasNoOther(committees, layout.sizes, att.aggregation, att.selected.value, 0, m);
      base := BitBase(layout.sizes, att.selected.value, c);
    }
    p := AttesterPlace(committees, att, c, base, m);
    assert VisitedIn(layout, att, c, p);
  }

  lemma AttesterPlace(committees: seq<seq<nat>>, att: Claims, c: nat, base: nat, m: nat) returns (p: nat)
    requires c < |committees| && m in CommitteeAttesters(committees[c], att.aggregation, base)
    ensures |Flat(committees[..c])| <= p < |Flat(committees[..c])| + |committees[c]| <= |Flat(committees)|
    ensures base + p - |Flat(committees[..c])| in att.aggregation && Flat(committees)[p] == m
  {
    var j :| 0 <= j < |committees[c]| && base + j in att.aggregation && committees[c][j] == m;
    p := |Flat(committees[..c])| + j;
    FlatPrefix(committees, c, j);
  }

  lemma VisitedAttests(layout: Layout, committees: seq<seq<nat>>, active: seq<nat>, balances: seq<nat>,
      att: Claims, c: nat, p: nat)
    requires IsLayout(layout, committees, active, balances) && VisitedIn(layout, att, c, p)
    ensures p < layout.totalMembers && Flat(committees)[p] in AttestingIndices(committees, att)
  {
    var j, m := p - layout.offsets[c], committees[c][p - layout.offsets[c]];
    FlatPrefix(committees, c, j);
    if att.selected.Some? {
      var base := BitBase(layout.sizes, att.selected.value, c);
      assert m in CommitteeAttesters(committees[c], att.aggregation, base);
      AttestingHas(committees, layout.sizes, att.aggregation, att.selected.value, 0, c, m);
    } else {
      assert m in CommitteeAttesters(committees[c], att.aggregation, 0);
    }
  }
}
