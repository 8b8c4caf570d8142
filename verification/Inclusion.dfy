/**
 Canonical verdicts on won slots (pkg/payload_bidder/inclusion_tracker.go), first on
 the block tree itself, then as the tracker derives them: walking parent roots from
 each new head through a cache, with blocks that cannot be fetched at the moment.
 */
module Inclusion {
  import opened Common

  /** parentHash is the execution parent that the block commits to. */
  datatype Block = Block(root: nat, slot: nat, parentRoot: nat, parentHash: nat, execHash: nat)

  type Tree = map<nat, Block>

  datatype Verdict = Canonical | Missed | Orphaned

  /** Blocks are filed under their roots and come after their parents. */
  ghost predicate WellFormed(tree: Tree)
  {
    && (forall r :: r in tree ==> tree[r].root == r)
    && (forall r, p :: r in tree && p in tree && tree[r].parentRoot == p ==> tree[p].slot < tree[r].slot)
  }

  // ----- the chain of a head -----

  ghost predicate IsAncestor(tree: Tree, a: nat, head: nat)
    requires WellFormed(tree) && head in tree
    decreases tree[head].slot
  {
    a == head || (tree[head].parentRoot in tree && IsAncestor(tree, a, tree[head].parentRoot))
  }

  /** The chain of head is known down to a block at or before slot. */
  ghost predicate Reaches(tree: Tree, head: nat, slot: nat)
    requires WellFormed(tree) && head in tree
    decreases tree[head].slot
  {
    tree[head].slot <= slot || (tree[head].parentRoot in tree && Reaches(tree, tree[head].parentRoot, slot))
  }

  /** The first block after slot on the chain of head. */
  ghost function FirstAfter(tree: Tree, head: nat, slot: nat): (first: nat)
    requires WellFormed(tree) && head in tree && tree[head].slot > slot && Reaches(tree, head, slot)
    ensures first in tree && tree[first].parentRoot in tree
    decreases tree[head].slot
  {
    if tree[tree[head].parentRoot].slot <= slot then head else FirstAfter(tree, tree[head].parentRoot, slot)
  }

  lemma {:induction false} FirstAfterIsFirst(tree: Tree, head: nat, slot: nat)
    requires WellFormed(tree) && head in tree && tree[head].slot > slot && Reaches(tree, head, slot)
    ensures var first := FirstAfter(tree, head, slot);
      && first in tree && tree[first].slot > slot && IsAncestor(tree, first, head)
      && tree[first].parentRoot in tree && tree[tree[first].parentRoot].slot <= slot
    ensures forall b :: b in tree && IsAncestor(tree, b, head) && tree[b].slot > slot ==>
      tree[FirstAfter(tree, head, slot)].slot <= tree[b].slot
    decreases tree[head].slot
  {
    var parent := tree[head].parentRoot;
    if tree[parent].slot > slot {
      FirstAfterIsFirst(tree, parent, slot);
    } else {
      forall b | b in tree && IsAncestor(tree, b, head) && tree[b].slot > slot
        ensures b == head
      {
        if b != head {
          AncestorsAreOlder(tree, b, parent);
        }
      }
    }
  }

  lemma {:induction false} AncestorsAreOlder(tree: Tree, a: nat, head: nat)
    requires WellFormed(tree) && head in tree && IsAncestor(tree, a, head)
    ensures a in tree && tree[a].slot <= tree[head].slot
    ensures tree[a].slot == tree[head].slot ==> a == head
    decreases tree[head].slot
  {
    if a != head {
      AncestorsAreOlder(tree, a, tree[head].parentRoot);
    }
  }

  /** The block at or before slot that the chain of head goes through is the parent of the first block after slot. */
  lemma {:induction false} AncestorsUpTo(tree: Tree, a: nat, head: nat, slot: nat)
    requires WellFormed(tree) && head in tree && tree[head].slot > slot && Reaches(tree, head, slot)
    requires a in tree && tree[a].slot <= slot
    ensures IsAncestor(tree, a, head) <==> IsAncestor(tree, a, tree[FirstAfter(tree, head, slot)].parentRoot)
    decreases tree[head].slot
  {
    FirstAfterIsFirst(tree, head, slot);
    var parent := tree[head].parentRoot;
    if tree[parent].slot > slot {
      AncestorsUpTo(tree, a, parent, slot);
    }
  }

  // ----- the verdict -----

  /** What the walk of resolveVerdict arrives at when every block resolves. */
  ghost function VerdictOn(tree: Tree, head: nat, slot: nat, blockRoot: nat, execHash: nat): Verdict
    requires WellFormed(tree) && head in tree && tree[head].slot > slot && Reaches(tree, head, slot)
  {
    var next := FirstAfter(tree, head, slot);
    FirstAfterIsFirst(tree, head, slot);
    if tree[next].parentRoot != blockRoot then Orphaned
    else if tree[next].parentHash == execHash then Canonical
    else Missed
  }

  /**
   The verdict is exact: the won block counts as canonical exactly when it is the last block of the head's chain at
   or before the won slot. For a won block that really has the won slot that means: when it is an ancestor.
   */
  lemma VerdictIsExact(tree: Tree, head: nat, slot: nat, blockRoot: nat, execHash: nat)
    requires WellFormed(tree) && head in tree && tree[head].slot > slot && Reaches(tree, head, slot)
    requires blockRoot in tree
    ensures var v := VerdictOn(tree, head, slot, blockRoot, execHash);
      var next := FirstAfter(tree, head, slot);
      && (v != Orphaned <==> tree[next].parentRoot == blockRoot)
      && (tree[blockRoot].slot == slot ==>
            && (v == Orphaned <==> !IsAncestor(tree, blockRoot, head))
            && (v == Canonical <==> IsAncestor(tree, blockRoot, head) && tree[next].parentHash == execHash)
            && (v == Missed <==> IsAncestor(tree, blockRoot, head) && tree[next].parentHash != execHash))
  {
    FirstAfterIsFirst(tree, head, slot);
    if tree[blockRoot].slot == slot {
      AncestorsUpTo(tree, blockRoot, head, slot);
      var parent := tree[FirstAfter(tree, head, slot)].parentRoot;
      if IsAncestor(tree, blockRoot, parent) {
        AncestorsAreOlder(tree, blockRoot, parent);
      }
    }
  }

  // ----- resolving through the cache -----

  /** What the beacon node answers during one walk, which asks for a root once at most; None is a failed fetch. */
  type Node = nat -> Option<Block>

  ghost predicate Honest(tree: Tree, node: Node)
  {
    forall r :: node(r).Some? ==> r in tree && node(r).value == tree[r]
  }

  ghost predicate CacheOk(tree: Tree, cache: Tree)
  {
    forall r :: r in cache ==> r in tree && cache[r] == tree[r]
  }

  ghost predicate Known(cache: Tree, node: Node, root: nat)
  {
    root in cache || node(root).Some?
  }

  /** Nothing that was cached is lost. */
  ghost predicate Grows(cache: Tree, cache': Tree)
  {
    cache.Keys <= cache'.Keys
  }

  ghost predicate SameKnown(cache: Tree, cache': Tree, node: Node)
  {
    forall r :: Known(cache, node, r) <==> Known(cache', node, r)
  }

  /** Every block that the walk from head down to slot needs is cached or can be fetched. */
  ghost predicate Resolvable(tree: Tree, cache: Tree, node: Node, head: nat, slot: nat)
    requires WellFormed(tree) && head in tree && CacheOk(tree, cache) && Honest(tree, node)
    decreases tree[head].slot
  {
    tree[head].slot <= slot ||
    (Known(cache, node, tree[head].parentRoot) && Resolvable(tree, cache, node, tree[head].parentRoot, slot))
  }

  lemma {:induction false} ResolvableReaches(tree: Tree, cache: Tree, node: Node, head: nat, slot: nat)
    requires WellFormed(tree) && head in tree && CacheOk(tree, cache) && Honest(tree, node)
    requires Resolvable(tree, cache, node, head, slot)
    ensures Reaches(tree, head, slot)
    decreases tree[head].slot
  {
    if tree[head].slot > slot {
      ResolvableReaches(tree, cache, node, tree[head].parentRoot, slot);
    }
  }

  /** Caching what the node answers does not change what can be resolved. */
  lemma {:induction false} ResolvableSame(tree: Tree, cache: Tree, cache': Tree, node: Node, head: nat, slot: nat)
    requires WellFormed(tree) && head in tree && CacheOk(tree, cache) && CacheOk(tree, cache') && Honest(tree, node)
    requires SameKnown(cache', cache, node)
    ensures Resolvable(tree, cache, node, head, slot) <==> Resolvable(tree, cache', node, head, slot)
    decreases tree[head].slot
  {
    if tree[head].slot > slot && Known(cache, node, tree[head].parentRoot) {
      ResolvableSame(tree, cache, cache', node, tree[head].parentRoot, slot);
    }
  }

  /** A fuller cache resolves no less. */
  lemma {:induction false} ResolvableMore(tree: Tree, cache: Tree, cache': Tree, node: Node, head: nat, slot: nat)
    requires WellFormed(tree) && head in tree && CacheOk(tree, cache) && CacheOk(tree, cache') && Honest(tree, node)
    requires Grows(cache, cache') && Resolvable(tree, cache, node, head, slot)
    ensures Resolvable(tree, cache', node, head, slot)
    decreases tree[head].slot
  {
    if tree[head].slot > slot {
      ResolvableMore(tree, cache, cache', node, tree[head].parentRoot, slot);
    }
  }

  // ----- the tracker -----

  datatype Win = Win(blockRoot: nat, execHash: nat, verdict: Option<Verdict>)

  datatype StatusEvent = StatusEvent(slot: nat, verdict: Verdict, nextBlockSlot: nat, nextParentHash: nat)

  const WIN_WINDOW: nat := 16
  const CACHE_EXTRA: nat := 4

  /** What a head says about a win: the exact verdict, or nothing when it is not after slot or cannot be resolved. */
  ghost function Sight(tree: Tree, cache: Tree, node: Node, head: nat, slot: nat, win: Win): Option<Verdict>
    requires WellFormed(tree) && head in tree && CacheOk(tree, cache) && Honest(tree, node)
  {
    if tree[head].slot > slot && Resolvable(tree, cache, node, head, slot) then
      ResolvableReaches(tree, cache, node, head, slot);
      Some(VerdictOn(tree, head, slot, win.blockRoot, win.execHash))
    else None
  }

  /** Looking at the same head again, with the same answers and whatever of them is cached by now, sees the same. */
  lemma SightSame(tree: Tree, cache: Tree, cache': Tree, node: Node, head: nat, slot: nat, win: Win)
    requires WellFormed(tree) && head in tree && CacheOk(tree, cache) && CacheOk(tree, cache') && Honest(tree, node)
    requires SameKnown(cache', cache, node)
    ensures Sight(tree, cache, node, head, slot, win) == Sight(tree, cache', node, head, slot, win)
  {
    ResolvableSame(tree, cache, cache', node, head, slot);
  }

  /** The verdict of the last head that said something. */
  ghost function LastVerdict(seen: seq<Option<Verdict>>): Option<Verdict>
  {
    if seen == [] then None
    else if seen[|seen| - 1].Some? then seen[|seen| - 1]
    else LastVerdict(seen[..|seen| - 1])
  }

  ghost predicate IsVerdict(tree: Tree, head: nat, slot: nat, win: Win, verdict: Verdict, next: Block)
    requires WellFormed(tree)
  {
    && head in tree && tree[head].slot > slot && Reaches(tree, head, slot)
    && verdict == VerdictOn(tree, head, slot, win.blockRoot, win.execHash)
    && next == tree[FirstAfter(tree, head, slot)]
  }

  lemma LastVerdictOfOneMore(seen: seq<Option<Verdict>>, sight: Option<Verdict>)
    ensures LastVerdict(seen + [sight]) == if sight.Some? then sight else LastVerdict(seen)
  {
    assert (seen + [sight])[..|seen|] == seen;
  }

  /** The verdict of the last event for slot among these. */
  ghost function LastEvent(fired: seq<StatusEvent>, slot: nat): Option<Verdict>
  {
    if fired == [] then None
    else if fired[|fired| - 1].slot == slot then Some(fired[|fired| - 1].verdict)
    else LastEvent(fired[..|fired| - 1], slot)
  }

  lemma LastEventOfOneMore(fired: seq<StatusEvent>, from: nat, e: StatusEvent, slot: nat)
    requires from <= |fired|
    ensures LastEvent((fired + [e])[from..], slot) == if e.slot == slot then Some(e.verdict) else LastEvent(fired[from..], slot)
  {
    assert (fired + [e])[from..] == fired[from..] + [e];
    assert (fired[from..] + [e])[..|fired[from..]|] == fired[from..];
  }

  /** The verdict held for the win of slot s, the last event fired for it and the last resolvable head agree. */
  ghost predicate Agreed(s: nat, win: Win, seen: seq<Option<Verdict>>, armedAt: nat, fired: seq<StatusEvent>)
  {
    && armedAt <= |fired|
    && win.verdict == LastVerdict(seen)
    && win.verdict == LastEvent(fired[armedAt..], s)
  }

  /** The same wins, apart from the verdicts held. */
  ghost predicate SameWins(wins: map<nat, Win>, wins': map<nat, Win>)
  {
    && (forall s :: s in wins <==> s in wins')
    && forall s :: s in wins ==> wins'[s].blockRoot == wins[s].blockRoot && wins'[s].execHash == wins[s].execHash
  }

  ghost predicate AllAgree(wins: map<nat, Win>, seen: map<nat, seq<Option<Verdict>>>, armedAt: map<nat, nat>, fired: seq<StatusEvent>)
  {
    && (forall s :: s in wins ==> s in seen && s in armedAt)
    && forall s {:trigger Agreed(s, wins[s], seen[s], armedAt[s], fired)} :: s in wins ==>
      Agreed(s, wins[s], seen[s], armedAt[s], fired)
  }

  lemma SeeingKeepsAgreement(wins: map<nat, Win>, seen: map<nat, seq<Option<Verdict>>>, armedAt: map<nat, nat>,
      fired: seq<StatusEvent>, slot: nat, sight: Option<Verdict>)
    requires AllAgree(wins, seen, armedAt, fired) && slot in wins
    requires LastVerdict(seen[slot] + [sight]) == wins[slot].verdict
    ensures AllAgree(wins, seen[slot := seen[slot] + [sight]], armedAt, fired)
  {
    forall s | s in wins
      ensures Agreed(s, wins[s], seen[slot := seen[slot] + [sight]][s], armedAt[s], fired)
    {
      assert Agreed(s, wins[s], seen[s], armedAt[s], fired);
    }
  }

  lemma AnnouncingKeepsAgreement(wins: map<nat, Win>, seen: map<nat, seq<Option<Verdict>>>, armedAt: map<nat, nat>,
      fired: seq<StatusEvent>, slot: nat, sight: Option<Verdict>, event: StatusEvent)
    requires AllAgree(wins, seen, armedAt, fired) && slot in wins && event.slot == slot
    requires LastVerdict(seen[slot] + [sight]) == Some(event.verdict)
    ensures AllAgree(wins[slot := wins[slot].(verdict := Some(event.verdict))],
                     seen[slot := seen[slot] + [sight]], armedAt, fired + [event])
  {
    var wins', seen' := wins[slot := wins[slot].(verdict := Some(event.verdict))], seen[slot := seen[slot] + [sight]];
    forall s | s in wins
      ensures Agreed(s, wins'[s], seen'[s], armedAt[s], fired + [event])
    {
      assert Agreed(s, wins[s], seen[s], armedAt[s], fired);
      LastEventOfOneMore(fired, armedAt[s], event, s);
    }
  }

  function KeepFrom<T>(m: map<nat, T>, min: int): map<nat, T>
  {
    map s | s in m && s >= min :: m[s]
  }

  function Recent(cache: Tree, min: int): Tree
  {
    map r | r in cache && cache[r].slot >= min :: cache[r]
  }

  /** The slots before min are gone, apart from those in rest. */
  ghost function Dropping<T>(m: map<nat, T>, rest: set<nat>, min: int): map<nat, T>
  {
    map s | s in m && (s in rest || s >= min) :: m[s]
  }

  lemma DroppingOneMore<T>(m: map<nat, T>, rest: set<nat>, min: int, slot: nat)
    requires slot in rest
    ensures Dropping(m, rest - {slot}, min) == if slot < min then Dropping(m, rest, min) - {slot} else Dropping(m, rest, min)
  {
  }

  lemma KeepingKeepsAgreement(wins: map<nat, Win>, seen: map<nat, seq<Option<Verdict>>>, armedAt: map<nat, nat>,
      fired: seq<StatusEvent>, min: int)
    requires AllAgree(wins, seen, armedAt, fired)
    ensures AllAgree(KeepFrom(wins, min), KeepFrom(seen, min), KeepFrom(armedAt, min), fired)
  {
    forall s | s in KeepFrom(wins, min)
      ensures Agreed(s, wins[s], seen[s], armedAt[s], fired)
    {
    }
  }

  lemma SameWinsKept(wins: map<nat, Win>, wins': map<nat, Win>, kept: map<nat, Win>, min: int)
    requires SameWins(wins, wins') && kept == KeepFrom(wins', min)
    ensures SameWins(KeepFrom(wins, min), kept)
  {
  }

  /** The tracked wins once the head has been looked at for our payload, proposed for slot ours. */
  function AfterArm(wins: map<nat, Win>, ours: Option<nat>, head: Block): map<nat, Win>
  {
    if ours.Some? then wins[ours.value := Win(head.root, head.execHash, None)] else wins
  }

  ghost function SeenAfterArm(seen: map<nat, seq<Option<Verdict>>>, ours: Option<nat>): map<nat, seq<Option<Verdict>>>
  {
    if ours.Some? then seen[ours.value := []] else seen
  }

  type Sights = map<nat, Option<Verdict>>

  /** The answers of the beacon node, which may differ from one win's walk to the next. */
  type Nodes = nat -> Node

  ghost predicate AllHonest(tree: Tree, nodes: Nodes)
  {
    forall s: nat {:trigger nodes(s)} :: Honest(tree, nodes(s))
  }

  /** The win of slot s was looked at with this cache, which has at least what was cached before the head's walks. */
  ghost predicate SightAt(tree: Tree, cache: Tree, caches: map<nat, Tree>, nodes: Nodes, head: nat, wins: map<nat, Win>,
                          sights: Sights, s: nat)
    requires WellFormed(tree) && head in tree && AllHonest(tree, nodes) && s in wins
  {
    && s in caches && s in sights && CacheOk(tree, caches[s]) && Grows(cache, caches[s])
    && sights[s] == Sight(tree, caches[s], nodes(s), head, s, wins[s])
  }

  /** What the head says about every win outside rest. */
  ghost predicate AreSights(tree: Tree, cache: Tree, caches: map<nat, Tree>, nodes: Nodes, head: nat, wins: map<nat, Win>,
                            sights: Sights, rest: set<nat>)
    requires WellFormed(tree) && head in tree && AllHonest(tree, nodes)
  {
    && sights.Keys == wins.Keys - rest
    && forall s {:trigger SightAt(tree, cache, caches, nodes, head, wins, sights, s)} :: s in wins && s !in rest ==>
      SightAt(tree, cache, caches, nodes, head, wins, sights, s)
  }

  lemma SightsOneMore(tree: Tree, cache: Tree, caches: map<nat, Tree>, nodes: Nodes, head: nat, wins: map<nat, Win>,
                      sights: Sights, rest: set<nat>, slot: nat, now: Tree, sight: Option<Verdict>)
    requires WellFormed(tree) && head in tree && AllHonest(tree, nodes) && slot in wins && slot in rest
    requires AreSights(tree, cache, caches, nodes, head, wins, sights, rest)
    requires CacheOk(tree, now) && Grows(cache, now) && sight == Sight(tree, now, nodes(slot), head, slot, wins[slot])
    ensures AreSights(tree, cache, caches[slot := now], nodes, head, wins, sights[slot := sight], rest - {slot})
  {
    var caches', sights' := caches[slot := now], sights[slot := sight];
    forall s | s in wins && s !in rest - {slot}
      ensures SightAt(tree, cache, caches', nodes, head, wins, sights', s)
    {
      assert s != slot ==> SightAt(tree, cache, caches, nodes, head, wins, sights, s);
    }
  }

  /** A win that the cache before the head and the answers of its own walk resolve does get the head's verdict. */
  lemma ResolvableIsSeen(tree: Tree, cache: Tree, caches: map<nat, Tree>, nodes: Nodes, head: nat, wins: map<nat, Win>,
                         sights: Sights, s: nat)
    requires WellFormed(tree) && head in tree && AllHonest(tree, nodes) && CacheOk(tree, cache)
    requires AreSights(tree, cache, caches, nodes, head, wins, sights, {}) && s in wins && tree[head].slot > s
    requires Resolvable(tree, cache, nodes(s), head, s)
    ensures Reaches(tree, head, s)
    ensures s in sights && sights[s] == Some(VerdictOn(tree, head, s, wins[s].blockRoot, wins[s].execHash))
  {
    assert SightAt(tree, cache, caches, nodes, head, wins, sights, s);
    ResolvableMore(tree, cache, caches[s], nodes(s), head, s);
    ResolvableReaches(tree, cache, nodes(s), head, s);
  }

  /** The histories with one more sight for the wins that have one. */
  ghost function SeenAlso(seen: map<nat, seq<Option<Verdict>>>, sights: Sights): map<nat, seq<Option<Verdict>>>
  {
    map s | s in seen :: if s in sights then seen[s] + [sights[s]] else seen[s]
  }

  lemma SeenOneMore(seen: map<nat, seq<Option<Verdict>>>, sights: Sights, slot: nat, sight: Option<Verdict>)
    requires slot in seen && slot !in sights
    ensures SeenAlso(seen, sights)[slot] == seen[slot]
    ensures SeenAlso(seen, sights[slot := sight]) == SeenAlso(seen, sights)[slot := seen[slot] + [sight]]
  {
  }

  /** The event carries the head's verdict on the win and the first block after the slot. */
  ghost predicate Reports(tree: Tree, head: nat, win: Win, e: StatusEvent)
    requires WellFormed(tree)
  {
    && head in tree && tree[head].slot > e.slot && Reaches(tree, head, e.slot)
    && e.verdict == VerdictOn(tree, head, e.slot, win.blockRoot, win.execHash)
    && e.nextBlockSlot == tree[FirstAfter(tree, head, e.slot)].slot
    && e.nextParentHash == tree[FirstAfter(tree, head, e.slot)].parentHash
  }

  ghost predicate AllReport(tree: Tree, head: nat, wins: map<nat, Win>, fired: seq<StatusEvent>, from: nat)
    requires WellFormed(tree)
  {
    forall i :: from <= i < |fired| ==> fired[i].slot in wins && Reports(tree, head, wins[fired[i].slot], fired[i])
  }

  /** At most one more event, for this slot, and with another verdict than the one held. */
  ghost predicate OneNews(fired: seq<StatusEvent>, fired': seq<StatusEvent>, slot: nat, held: Option<Verdict>)
  {
    fired' == fired ||
    (fired' != [] && fired'[..|fired'| - 1] == fired
     && fired'[|fired'| - 1].slot == slot && held != Some(fired'[|fired'| - 1].verdict))
  }

  /** The events from some index on are for different wins outside rest, each with another verdict than the one held. */
  ghost predicate NewsOnly(wins: map<nat, Win>, fired: seq<StatusEvent>, from: nat, rest: set<nat>)
  {
    && (forall i :: from <= i < |fired| ==>
          fired[i].slot in wins && fired[i].slot !in rest && wins[fired[i].slot].verdict != Some(fired[i].verdict))
    && forall i, j :: from <= i < j < |fired| ==> fired[i].slot != fired[j].slot
  }

  lemma NewsOneMore(wins: map<nat, Win>, fired: seq<StatusEvent>, fired': seq<StatusEvent>, from: nat, rest: set<nat>, slot: nat)
    requires NewsOnly(wins, fired, from, rest) && from <= |fired| && slot in rest && slot in wins
    requires OneNews(fired, fired', slot, wins[slot].verdict)
    ensures NewsOnly(wins, fired', from, rest - {slot})
  {
    assert forall i :: 0 <= i < |fired| && fired' != fired ==> fired'[i] == fired[i];
  }

  class Tracker {
    ghost const tree: Tree
    var trackedWins: map<nat, Win>
    var blockCache: Tree
    var fired: seq<StatusEvent>
    ghost var seen: map<nat, seq<Option<Verdict>>> // per tracked win, the heads since it was armed
    ghost var armedAt: map<nat, nat> // per tracked win, the number of events fired before it was armed

    ghost predicate Valid()
      reads this
    {
      WellFormed(tree) && CacheOk(tree, blockCache) && AllAgree(trackedWins, seen, armedAt, fired)
    }

    constructor (ghost tree: Tree)
      requires WellFormed(tree)
      ensures Valid() && this.tree == tree && trackedWins == map[] && blockCache == map[] && fired == []
    {
      this.tree := tree;
      trackedWins, blockCache, fired, seen, armedAt := map[], map[], [], map[], map[];
    }

    /** Cache first, then the node; what the node answers is cached. */
    method GetBlock(root: nat, node: Node) returns (block: Option<Block>)
      requires CacheOk(tree, blockCache) && Honest(tree, node)
      modifies this`blockCache
      ensures CacheOk(tree, blockCache)
      ensures block == if Known(old(blockCache), node, root) then Some(tree[root]) else None
      ensures SameKnown(blockCache, old(blockCache), node) && Grows(old(blockCache), blockCache)
    {
      if root in blockCache {
        return Some(blockCache[root]);
      }
      block := node(root);
      if block.None? {
        return None;
      }
      blockCache := blockCache[root := block.value];
    }

    method ResolveVerdict(head: Block, slot: nat, win: Win, node: Node) returns (verdict: Option<Verdict>, next: Block)
      requires WellFormed(tree) && CacheOk(tree, blockCache) && Honest(tree, node)
      requires head.root in tree && tree[head.root] == head && head.slot > slot
      modifies this`blockCache
      ensures CacheOk(tree, blockCache)
      ensures Grows(old(blockCache), blockCache) && SameKnown(blockCache, old(blockCache), node)
      ensures verdict.Some? <==> Resolvable(tree, old(blockCache), node, head.root, slot)
      ensures verdict.Some? ==> IsVerdict(tree, head.root, slot, win, verdict.value, next)
    {
      next := head;
      var cursor := head;
      ghost var cache := blockCache;
      while cursor.slot > slot
        invariant CacheOk(tree, blockCache)
        invariant SameKnown(blockCache, cache, node) && Grows(cache, blockCache)
        invariant cursor.root in tree && tree[cursor.root] == cursor
        invariant next.root in tree && tree[next.root] == next && next.slot > slot
        invariant next == cursor || next.parentRoot == cursor.root
        invariant next == cursor ==> cursor == head
        invariant Resolvable(tree, cache, node, head.root, slot) <==> Resolvable(tree, cache, node, cursor.root, slot)
        invariant Reaches(tree, head.root, slot) <==> Reaches(tree, cursor.root, slot)
        invariant cursor.slot > slot && Reaches(tree, cursor.root, slot) ==>
          FirstAfter(tree, head.root, slot) == FirstAfter(tree, cursor.root, slot)
        invariant cursor.slot <= slot ==> FirstAfter(tree, head.root, slot) == next.root
        decreases cursor.slot
      {
        next := cursor;
        var parent := GetBlock(cursor.parentRoot, node);
        if parent.None? {
          return None, head;
        }
        cursor := parent.value;
      }
      ResolvableReaches(tree, cache, node, cursor.root, slot);
      FirstAfterIsFirst(tree, head.root, slot);
      if cursor.root != win.blockRoot {
        return Some(Orphaned), next;
      }
      if next.parentHash == win.execHash {
        return Some(Canonical), next;
      }
      return Some(Missed), next;
    }

    method EvaluateTrackedWins(head: Block, nodes: Nodes) returns (ghost sights: Sights, ghost caches: map<nat, Tree>)
      requires Valid() && AllHonest(tree, nodes) && head.root in tree && tree[head.root] == head
      modifies this
      ensures Valid() && old(fired) <= fired && SameWins(old(trackedWins), trackedWins)
      ensures AreSights(tree, old(blockCache), caches, nodes, head.root, old(trackedWins), sights, {})
      ensures seen == SeenAlso(old(seen), sights)
      ensures AllReport(tree, head.root, old(trackedWins), fired, |old(fired)|)
      ensures NewsOnly(old(trackedWins), fired, |old(fired)|, {})
    {
      ghost var cache, wins, history := blockCache, trackedWins, seen;
      ghost var before := |fired|;
      var rest := trackedWins.Keys;
      sights, caches := map[], map[];
      assert seen == SeenAlso(history, sights);
      while rest != {}
        invariant rest <= wins.Keys
        invariant Valid() && old(fired) <= fired && SameWins(wins, trackedWins) && Grows(cache, blockCache)
        invariant AreSights(tree, cache, caches, nodes, head.root, wins, sights, rest)
        invariant seen == SeenAlso(history, sights) && wins.Keys <= history.Keys
        invariant before <= |fired| && AllReport(tree, head.root, wins, fired, before)
        invariant NewsOnly(wins, fired, before, rest) && forall s :: s in rest ==> trackedWins[s] == wins[s]
        decreases |rest|
      {
        var slot :| slot in rest;
        sights, caches := EvaluateNext(slot, head, nodes, rest, cache, wins, history, before, sights, caches);
        rest := rest - {slot};
      }
    }

    /** EvaluateWin, as the loop above uses it: the rest of the slots still have to see the head. */
    method EvaluateNext(slot: nat, head: Block, nodes: Nodes, ghost rest: set<nat>, ghost cache: Tree, ghost wins: map<nat, Win>,
        ghost history: map<nat, seq<Option<Verdict>>>, ghost from: nat, ghost sights0: Sights, ghost caches0: map<nat, Tree>)
      returns (ghost sights: Sights, ghost caches: map<nat, Tree>)
      requires Valid() && AllHonest(tree, nodes) && head.root in tree && tree[head.root] == head
      requires SameWins(wins, trackedWins) && Grows(cache, blockCache) && slot in rest && slot in wins && slot in history
      requires AreSights(tree, cache, caches0, nodes, head.root, wins, sights0, rest) && seen == SeenAlso(history, sights0)
      requires forall s :: s in rest && s in wins ==> trackedWins[s] == wins[s]
      requires from <= |fired| && AllReport(tree, head.root, wins, fired, from) && NewsOnly(wins, fired, from, rest)
      modifies this
      ensures Valid() && old(fired) <= fired
      ensures SameWins(wins, trackedWins) && Grows(cache, blockCache)
      ensures AreSights(tree, cache, caches, nodes, head.root, wins, sights, rest - {slot})
      ensures seen == SeenAlso(history, sights)
      ensures from <= |fired| && AllReport(tree, head.root, wins, fired, from) && NewsOnly(wins, fired, from, rest - {slot})
      ensures forall s :: s in rest && s != slot && s in wins ==> trackedWins[s] == wins[s]
    {
      ghost var sight := Sight(tree, blockCache, nodes(slot), head.root, slot, wins[slot]);
      SightsOneMore(tree, cache, caches0, nodes, head.root, wins, sights0, rest, slot, blockCache, sight);
      SeenOneMore(history, sights0, slot, sight);
      sights, caches := sights0[slot := sight], caches0[slot := blockCache];
      EvaluateWin(slot, head, nodes(slot), sight);
      NewsOneMore(wins, old(fired), fired, from, rest, slot);
    }

    /** One iteration of the loop over the tracked wins. */
    method EvaluateWin(slot: nat, head: Block, node: Node, ghost sight: Option<Verdict>)
      requires Valid() && Honest(tree, node) && head.root in tree && tree[head.root] == head && slot in trackedWins
      requires sight == Sight(tree, blockCache, node, head.root, slot, trackedWins[slot])
      modifies this
      ensures Valid() && old(fired) <= fired
      ensures Grows(old(blockCache), blockCache) && SameWins(old(trackedWins), trackedWins)
      ensures seen == old(seen)[slot := old(seen[slot]) + [sight]]
      ensures AllReport(tree, head.root, old(trackedWins), fired, |old(fired)|)
      ensures OneNews(old(fired), fired, slot, old(trackedWins[slot].verdict))
      ensures forall s :: s != slot && s in trackedWins ==> trackedWins[s] == old(trackedWins)[s]
    {
      var win := trackedWins[slot];
      assert Agreed(slot, win, seen[slot], armedAt[slot], fired);
      LastVerdictOfOneMore(seen[slot], sight);
      if head.slot <= slot {
        NoteHead(slot, sight);
        return;
      }
      var verdict, next := ResolveVerdict(head, slot, win, node);
      if verdict.None? || verdict == win.verdict {
        NoteHead(slot, sight);
        return;
      }
      Announce(slot, verdict.value, StatusEvent(slot, verdict.value, next.slot, next.parentHash), sight);
    }

    /** The head changes nothing for this win. */
    ghost method NoteHead(slot: nat, sight: Option<Verdict>)
      requires Valid() && slot in trackedWins
      requires LastVerdict(seen[slot] + [sight]) == trackedWins[slot].verdict
      modifies this`seen
      ensures Valid() && seen == old(seen)[slot := old(seen[slot]) + [sight]]
    {
      SeeingKeepsAgreement(trackedWins, seen, armedAt, fired, slot, sight);
      seen := seen[slot := seen[slot] + [sight]];
    }

    method Announce(slot: nat, verdict: Verdict, event: StatusEvent, ghost sight: Option<Verdict>)
      requires Valid() && slot in trackedWins && event.slot == slot && event.verdict == verdict
      requires LastVerdict(seen[slot] + [sight]) == Some(verdict)
      modifies this`trackedWins, this`fired, this`seen
      ensures Valid() && fired == old(fired) + [event]
      ensures trackedWins == old(trackedWins)[slot := old(trackedWins[slot]).(verdict := Some(verdict))]
      ensures seen == old(seen)[slot := old(seen[slot]) + [sight]]
    {
      AnnouncingKeepsAgreement(trackedWins, seen, armedAt, fired, slot, sight, event);
      trackedWins := trackedWins[slot := trackedWins[slot].(verdict := Some(verdict))];
      fired := fired + [event];
      seen := seen[slot := seen[slot] + [sight]];
    }

    method PruneTracking(headSlot: nat)
      requires Valid()
      modifies this
      ensures Valid() && fired == old(fired)
      ensures trackedWins == KeepFrom(old(trackedWins), headSlot - WIN_WINDOW)
      ensures trackedWins == map s | s in old(trackedWins) && s + WIN_WINDOW >= headSlot :: old(trackedWins)[s]
      ensures seen == KeepFrom(old(seen), headSlot - WIN_WINDOW)
      ensures blockCache == Recent(old(blockCache), headSlot - WIN_WINDOW - CACHE_EXTRA)
    {
      if headSlot <= WIN_WINDOW {
        assert seen == KeepFrom(seen, headSlot - WIN_WINDOW) && trackedWins == KeepFrom(trackedWins, headSlot - WIN_WINDOW);
        assert blockCache == Recent(blockCache, headSlot - WIN_WINDOW - CACHE_EXTRA);
        return;
      }
      PruneWins(headSlot - WIN_WINDOW);
      if headSlot <= WIN_WINDOW + CACHE_EXTRA {
        assert blockCache == Recent(blockCache, headSlot - WIN_WINDOW - CACHE_EXTRA);
        return;
      }
      PruneCache(headSlot - WIN_WINDOW - CACHE_EXTRA);
    }

    method PruneWins(minWinSlot: nat)
      requires Valid()
      modifies this`trackedWins, this`seen, this`armedAt
      ensures Valid()
      ensures trackedWins == KeepFrom(old(trackedWins), minWinSlot) && seen == KeepFrom(old(seen), minWinSlot)
    {
      ghost var wins := trackedWins;
      var rest := trackedWins.Keys;
      assert trackedWins == Dropping(wins, rest, minWinSlot);
      while rest != {}
        invariant rest <= wins.Keys
        invariant trackedWins == Dropping(wins, rest, minWinSlot)
        modifies this`trackedWins
        decreases |rest|
      {
        var slot :| slot in rest;
        DroppingOneMore(wins, rest, minWinSlot, slot);
        rest := rest - {slot};
        if slot < minWinSlot {
          trackedWins := trackedWins - {slot};
        }
      }
      KeepingKeepsAgreement(wins, seen, armedAt, fired, minWinSlot);
      assert trackedWins == KeepFrom(wins, minWinSlot);
      seen := KeepFrom(seen, minWinSlot);
      armedAt := KeepFrom(armedAt, minWinSlot);
    }

    method PruneCache(minCacheSlot: nat)
      requires CacheOk(tree, blockCache)
      modifies this`blockCache
      ensures CacheOk(tree, blockCache) && blockCache == Recent(old(blockCache), minCacheSlot)
    {
      ghost var cache := blockCache;
      var rest := blockCache.Keys;
      while rest != {}
        invariant rest <= blockCache.Keys <= cache.Keys
        invariant forall r :: r in blockCache ==> blockCache[r] == cache[r]
        invariant forall r :: r in cache && r !in rest ==> (r in blockCache <==> cache[r].slot >= minCacheSlot)
        decreases |rest|
      {
        var root :| root in rest;
        rest := rest - {root};
        if blockCache[root].slot < minCacheSlot {
          blockCache := blockCache - {root};
        }
      }
      assert blockCache == Recent(cache, minCacheSlot);
    }

    /**
     processBlockInfo. `ours` is the proposal slot of our payload when the block commits to one and its fork tracks
     reveals; arming overwrites an earlier win of that slot.
     */
    method ProcessBlockInfo(head: Block, ours: Option<nat>, nodes: Nodes) returns (ghost sights: Sights, ghost caches: map<nat, Tree>)
      requires Valid() && AllHonest(tree, nodes) && head.root in tree && tree[head.root] == head
      modifies this
      ensures Valid() && old(fired) <= fired
      ensures SameWins(KeepFrom(AfterArm(old(trackedWins), ours, head), head.slot - WIN_WINDOW), trackedWins)
      ensures CacheOk(tree, old(blockCache)[head.root := head])
      ensures AreSights(tree, old(blockCache)[head.root := head], caches, nodes, head.root,
                        AfterArm(old(trackedWins), ours, head), sights, {})
      ensures seen == KeepFrom(SeenAlso(SeenAfterArm(old(seen), ours), sights), head.slot - WIN_WINDOW)
      ensures AllReport(tree, head.root, AfterArm(old(trackedWins), ours, head), fired, |old(fired)|)
      ensures NewsOnly(AfterArm(old(trackedWins), ours, head), fired, |old(fired)|, {})
    {
      sights, caches := LookAtHead(head, ours, nodes);
      ghost var evaluated := trackedWins;
      PruneTracking(head.slot);
      SameWinsKept(AfterArm(old(trackedWins), ours, head), evaluated, trackedWins, head.slot - WIN_WINDOW);
    }

    method LookAtHead(head: Block, ours: Option<nat>, nodes: Nodes) returns (ghost sights: Sights, ghost caches: map<nat, Tree>)
      requires Valid() && AllHonest(tree, nodes) && head.root in tree && tree[head.root] == head
      modifies this
      ensures Valid() && old(fired) <= fired && SameWins(AfterArm(old(trackedWins), ours, head), trackedWins)
      ensures CacheOk(tree, old(blockCache)[head.root := head])
      ensures AreSights(tree, old(blockCache)[head.root := head], caches, nodes, head.root,
                        AfterArm(old(trackedWins), ours, head), sights, {})
      ensures seen == SeenAlso(SeenAfterArm(old(seen), ours), sights)
      ensures AllReport(tree, head.root, AfterArm(old(trackedWins), ours, head), fired, |old(fired)|)
      ensures NewsOnly(AfterArm(old(trackedWins), ours, head), fired, |old(fired)|, {})
    {
      CheckForOurPayload(head, ours);
      sights, caches := EvaluateTrackedWins(head, nodes);
    }

    method CheckForOurPayload(head: Block, ours: Option<nat>)
      requires Valid() && head.root in tree && tree[head.root] == head
      modifies this
      ensures Valid() && fired == old(fired)
      ensures trackedWins == AfterArm(old(trackedWins), ours, head)
      ensures ours.None? ==> trackedWins == old(trackedWins)
      ensures ours.Some? ==> trackedWins == old(trackedWins)[ours.value := Win(head.root, head.execHash, None)]
      ensures seen == SeenAfterArm(old(seen), ours)
      ensures blockCache == old(blockCache)[head.root := head]
    {
      blockCache := blockCache[head.root := head];
      if ours.Some? {
        Arm(ours.value, head);
      }
    }

    method Arm(slot: nat, head: Block)
      requires Valid()
      modifies this`trackedWins, this`seen, this`armedAt
      ensures Valid()
      ensures trackedWins == old(trackedWins)[slot := Win(head.root, head.execHash, None)]
      ensures seen == old(seen)[slot := []]
    {
      trackedWins := trackedWins[slot := Win(head.root, head.execHash, None)];
      seen := seen[slot := []];
      armedAt := armedAt[slot := |fired|];
    }
  }
}
