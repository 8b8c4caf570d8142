/**
 The swap-or-not shuffle of pkg/chain/duties.go: an in-place list shuffle that
 walks two mirrored segments per round over a cached hash and a cached byte.

 The reference is `compute_shuffled_index` of the phase0 consensus specification,
 one index at a time. SHA-256 is a parameter: any function to 32 bytes.
 */
module Shuffle {
  import opened Common
  import opened Arith
  import opened Bytes

  type HashFn = seq<byte> -> Bytes32

  const MAX_SHUFFLE_LIST_SIZE: nat := 0x100_0000_0000 // 2^40

  // ----- the per-index specification -----

  function Pivot(h: HashFn, seed: Bytes32, r: byte, n: nat): (p: nat)
    requires n > 0
    ensures p < n
  {
    FromLE(h(seed + [r])[..8]) % n
  }

  function Flip(pivot: nat, n: nat, index: nat): (f: nat)
    requires pivot < n && index < n
    ensures f < n
  {
    (pivot + n - index) % n
  }

  function Source(h: HashFn, seed: Bytes32, r: byte, position: nat): Bytes32
  {
    h(seed + [r] + ToLE(position / 256, 4))
  }

  function SourceByte(h: HashFn, seed: Bytes32, r: byte, position: nat): byte
  {
    Source(h, seed, r, position)[(position % 256) / 8]
  }

  predicate SwapBit(h: HashFn, seed: Bytes32, r: byte, position: nat)
  {
    Bit(SourceByte(h, seed, r, position), position % 8) == 1
  }

  /**
   One hash serves 256 positions, eight to a byte; its input is the seed, the round and the block number as four bytes,
   least significant first.
   */
  lemma SwapBitAt(h: HashFn, seed: Bytes32, r: byte, block: nat, at: nat, bit: nat, le: seq<byte>)
    requires at < 32 && bit < 8 && |le| == 4 && block == Word(le[0], le[1], le[2], le[3])
    ensures SwapBit(h, seed, r, 256 * block + 8 * at + bit) <==> Bit(h(seed + [r] + le)[at], bit) == 1
  {
    PositionParts(256 * block + 8 * at + bit, block, at, bit);
    FromLE4(le);
    ToLEFromLE(le);
  }

  lemma PositionParts(position: nat, block: nat, at: nat, bit: nat)
    requires at < 32 && bit < 8 && position == 256 * block + 8 * at + bit
    ensures position / 256 == block && position % 256 / 8 == at && position % 8 == bit
  {
    DivModUnique(position, 256, block, 8 * at + bit);
    DivModUnique(8 * at + bit, 8, at, bit);
    DivModUnique(position, 8, 32 * block + at, bit);
  }

  /** The pivot is the remainder of the first eight bytes of the round's hash, least significant first. */
  lemma PivotIs(h: HashFn, seed: Bytes32, r: byte, n: nat, s: Bytes32, v: nat, q: nat, p: nat)
    requires s == h(seed + [r]) && v == Word(s[0], s[1], s[2], s[3]) + 0x1_0000_0000 * Word(s[4], s[5], s[6], s[7])
    requires p < n && v == n * q + p
    ensures Pivot(h, seed, r, n) == p
  {
    FromLE8(s[..8]);
    DivModUnique(v, n, q, p);
  }

  /** One round of compute_shuffled_index. */
  function RoundIndex(h: HashFn, seed: Bytes32, r: byte, n: nat, index: nat): (i: nat)
    requires index < n
    ensures i < n
  {
    var flip := Flip(Pivot(h, seed, r, n), n, index);
    var position := if index < flip then flip else index;
    if SwapBit(h, seed, r, position) then flip else index
  }

  /** Rounds r, r+1, .., rounds-1 of compute_shuffled_index, in that order. */
  function IndexFrom(h: HashFn, seed: Bytes32, r: nat, rounds: nat, n: nat, index: nat): (i: nat)
    requires r <= rounds < 256 && index < n
    ensures i < n
    decreases rounds - r
  {
    if r == rounds then index else IndexFrom(h, seed, r + 1, rounds, n, RoundIndex(h, seed, r, n, index))
  }

  function ComputeShuffledIndex(h: HashFn, seed: Bytes32, rounds: nat, n: nat, index: nat): (i: nat)
    requires rounds < 256 && index < n
    ensures i < n
  {
    IndexFrom(h, seed, 0, rounds, n, index)
  }

  /** Rounds r-1, r-2, .., 0, in that order. */
  function IndexBack(h: HashFn, seed: Bytes32, r: nat, n: nat, index: nat): (i: nat)
    requires r < 256 && index < n
    ensures i < n
  {
    if r == 0 then index else IndexBack(h, seed, r - 1, n, RoundIndex(h, seed, r - 1, n, index))
  }

  // ----- each round is an involution; the two directions are mutually inverse -----

  lemma FlipValue(pivot: nat, n: nat, index: nat)
    requires pivot < n && index < n
    ensures Flip(pivot, n, index) == if index <= pivot then pivot - index else pivot + n - index
  {
    if index <= pivot {
      DivModUnique(pivot + n - index, n, 1, pivot - index);
    } else {
      DivModUnique(pivot + n - index, n, 0, pivot + n - index);
    }
  }

  lemma FlipTwice(pivot: nat, n: nat, index: nat)
    requires pivot < n && index < n
    ensures Flip(pivot, n, Flip(pivot, n, index)) == index
  {
    FlipValue(pivot, n, index);
    FlipValue(pivot, n, Flip(pivot, n, index));
  }

  lemma RoundIsInvolution(h: HashFn, seed: Bytes32, r: byte, n: nat, index: nat)
    requires index < n
    ensures RoundIndex(h, seed, r, n, RoundIndex(h, seed, r, n, index)) == index
  {
    FlipTwice(Pivot(h, seed, r, n), n, index);
  }

  /** A round exchanges the two indices that add up to the pivot, or to the pivot and n, if the bit of the larger is set. */
  lemma RoundExchanges(h: HashFn, seed: Bytes32, r: byte, n: nat, low: nat, high: nat)
    requires low <= high < n && (low + high == Pivot(h, seed, r, n) || low + high == Pivot(h, seed, r, n) + n)
    ensures RoundIndex(h, seed, r, n, low) == if SwapBit(h, seed, r, high) then high else low
    ensures RoundIndex(h, seed, r, n, high) == if SwapBit(h, seed, r, high) then low else high
  {
    FlipValue(Pivot(h, seed, r, n), n, low);
    FlipValue(Pivot(h, seed, r, n), n, high);
  }

  /** Without rounds nothing moves, and each further round is applied to what the rounds before it make of the index. */
  lemma RoundAfterRounds(h: HashFn, seed: Bytes32, rounds: nat, n: nat, index: nat)
    requires rounds < 255 && index < n
    ensures ComputeShuffledIndex(h, seed, 0, n, index) == index
    ensures ComputeShuffledIndex(h, seed, rounds + 1, n, index)
         == RoundIndex(h, seed, rounds, n, ComputeShuffledIndex(h, seed, rounds, n, index))
  {
    LastRoundLast(h, seed, 0, rounds, n, index);
  }

  lemma {:induction false} LastRoundLast(h: HashFn, seed: Bytes32, r: nat, rounds: nat, n: nat, index: nat)
    requires r <= rounds < 255 && index < n
    ensures IndexFrom(h, seed, r, rounds + 1, n, index) == RoundIndex(h, seed, rounds, n, IndexFrom(h, seed, r, rounds, n, index))
    decreases rounds - r
  {
    if r < rounds {
      LastRoundLast(h, seed, r + 1, rounds, n, RoundIndex(h, seed, r, n, index));
    } else {
      var last := RoundIndex(h, seed, r, n, index);
      assert IndexFrom(h, seed, r, r, n, index) == index && IndexFrom(h, seed, r + 1, r + 1, n, last) == last;
    }
  }

  lemma {:induction false} BackAfterFrom(h: HashFn, seed: Bytes32, r: nat, rounds: nat, n: nat, index: nat)
    requires r <= rounds < 256 && index < n
    ensures IndexBack(h, seed, rounds, n, IndexFrom(h, seed, r, rounds, n, index)) == IndexBack(h, seed, r, n, index)
    decreases rounds - r
  {
    if r < rounds {
      BackAfterFrom(h, seed, r + 1, rounds, n, RoundIndex(h, seed, r, n, index));
      RoundIsInvolution(h, seed, r, n, index);
    }
  }

  lemma {:induction false} FromAfterBack(h: HashFn, seed: Bytes32, r: nat, rounds: nat, n: nat, index: nat)
    requires r <= rounds < 256 && index < n
    ensures IndexFrom(h, seed, 0, rounds, n, IndexBack(h, seed, r, n, index)) == IndexFrom(h, seed, r, rounds, n, index)
    decreases r
  {
    if r > 0 {
      FromAfterBack(h, seed, r - 1, rounds, n, RoundIndex(h, seed, r - 1, n, index));
      RoundIsInvolution(h, seed, r - 1, n, index);
    }
  }

  /** compute_shuffled_index is a bijection on 0..n-1; running the rounds backwards is its inverse. */
  lemma ShuffledIndexBijective(h: HashFn, seed: Bytes32, rounds: nat, n: nat, index: nat)
    requires rounds < 256 && index < n
    ensures IndexBack(h, seed, rounds, n, ComputeShuffledIndex(h, seed, rounds, n, index)) == index
    ensures ComputeShuffledIndex(h, seed, rounds, n, IndexBack(h, seed, rounds, n, index)) == index
  {
    BackAfterFrom(h, seed, 0, rounds, n, index);
    FromAfterBack(h, seed, rounds, rounds, n, index);
  }

  lemma InverseOf(h: HashFn, seed: Bytes32, rounds: nat, n: nat, index: nat, v: nat)
    requires rounds < 256 && index < n && v == ComputeShuffledIndex(h, seed, rounds, n, index)
    ensures IndexBack(h, seed, rounds, n, v) == index
  {
    ShuffledIndexBijective(h, seed, rounds, n, index);
  }

  /** The whole list under compute_shuffled_index. */
  function Unshuffled<T>(h: HashFn, seed: Bytes32, rounds: nat, s: seq<T>): seq<T>
    requires rounds < 256
  {
    seq(|s|, i requires 0 <= i < |s| => s[ComputeShuffledIndex(h, seed, rounds, |s|, i)])
  }

  /** The whole list under the inverse index map. */
  function Shuffled<T>(h: HashFn, seed: Bytes32, rounds: nat, s: seq<T>): seq<T>
    requires rounds < 256
  {
    seq(|s|, i requires 0 <= i < |s| => s[IndexBack(h, seed, rounds, |s|, i)])
  }

  lemma ShuffleRoundTrip<T>(h: HashFn, seed: Bytes32, rounds: nat, s: seq<T>)
    requires rounds < 256
    ensures Unshuffled(h, seed, rounds, Shuffled(h, seed, rounds, s)) == s
    ensures Shuffled(h, seed, rounds, Unshuffled(h, seed, rounds, s)) == s
  {
    forall i | 0 <= i < |s|
      ensures Unshuffled(h, seed, rounds, Shuffled(h, seed, rounds, s))[i] == s[i]
      ensures Shuffled(h, seed, rounds, Unshuffled(h, seed, rounds, s))[i] == s[i]
    {
      ShuffledIndexBijective(h, seed, rounds, |s|, i);
    }
  }

  // ----- the in-place algorithm -----

  /** binary.LittleEndian.PutUint32(buf[33:], v) */
  method PutPosition(buf: array<byte>, v: nat)
    requires buf.Length == 37
    modifies buf
    ensures buf[..33] == old(buf[..33])
    ensures buf[33..] == ToLE(v, 4)
  {
    buf[33], buf[34], buf[35], buf[36] := v % 256, v / 256 % 256, v / 256 / 256 % 256, v / 256 / 256 / 256 % 256;
    ToLE4(v);
  }

  lemma ToLE4(v: nat)
    ensures ToLE(v, 4) == [v % 256, v / 256 % 256, v / 256 / 256 % 256, v / 256 / 256 / 256 % 256]
  {
    var a, b, c := v / 256, v / 256 / 256, v / 256 / 256 / 256;
    assert ToLE(c, 1) == [c % 256] + ToLE(c / 256, 0);
    assert ToLE(b, 2) == [b % 256] + ToLE(c, 1);
    assert ToLE(a, 3) == [a % 256] + ToLE(b, 2);
  }

  /** The hash and byte caches are those of position j, or j is a crossing at which they are refreshed. */
  ghost predicate CacheFor(h: HashFn, seed: Bytes32, r: byte, j: int, source: Bytes32, byteV: byte)
  {
    j >= 0 ==>
      && (j % 256 == 255 || source == Source(h, seed, r, j))
      && (j % 8 == 7 || byteV == SourceByte(h, seed, r, j))
  }

  lemma SameBlock(j: nat)
    requires j > 0
    ensures (j - 1) % 256 != 255 ==> (j - 1) / 256 == j / 256
  {
  }

  lemma SameByte(j: nat)
    requires j > 0
    ensures (j - 1) % 8 != 7 ==> (j - 1) % 256 / 8 == j % 256 / 8
  {
    if (j - 1) % 8 != 7 {
      var q, r := (j - 1) / 8, (j - 1) % 8;
      DivModUnique(j, 8, q, r + 1);
      calc {
        (j - 1) % 256 / 8;
      == { ByteInBlock(j - 1); }
        q % 32;
      == { ByteInBlock(j); }
        j % 256 / 8;
      }
    }
  }

  lemma ByteInBlock(j: nat)
    ensures j % 256 / 8 == j / 8 % 32
  {
    var q, r := j / 8, j % 8;
    assert j == 8 * q + r;
    assert j == 256 * (q / 32) + (8 * (q % 32) + r);
    DivModUnique(j, 256, q / 32, 8 * (q % 32) + r);
    DivModUnique(8 * (q % 32) + r, 8, q % 32, r);
  }

  lemma CacheCarriesOver(h: HashFn, seed: Bytes32, r: byte, j: nat)
    ensures CacheFor(h, seed, r, j - 1, Source(h, seed, r, j), SourceByte(h, seed, r, j))
  {
    if j > 0 {
      SameBlock(j);
      SameByte(j);
    }
  }

  method Swap(input: array<nat>, i: nat, j: nat)
    requires i < input.Length && j < input.Length
    modifies input
    ensures input[..] == old(input[..][i := input[j]][j := input[i]])
    ensures multiset(input[..]) == old(multiset(input[..]))
  {
    input[i], input[j] := input[j], input[i];
  }

  method SwapOrNot(h: HashFn, ghost seed: Bytes32, ghost r: byte, buf: array<byte>, byteV: byte, i: nat,
                   input: array<nat>, j: nat, source: Bytes32)
    returns (byteV': byte, source': Bytes32)
    requires buf.Length == 37 && buf as object != input && buf[..33] == seed + [r]
    requires i < input.Length && j < input.Length <= TWO_TO_32
    requires CacheFor(h, seed, r, j, source, byteV)
    modifies buf, input
    ensures buf[..33] == old(buf[..33])
    ensures source' == Source(h, seed, r, j) && byteV' == SourceByte(h, seed, r, j)
    ensures input[..] == if SwapBit(h, seed, r, j) then old(input[..][i := input[j]][j := input[i]]) else old(input[..])
    ensures multiset(input[..]) == old(multiset(input[..]))
  {
    source', byteV' := source, byteV;
    if j % 256 == 255 {
      PutPosition(buf, j / 256);
      assert buf[..] == buf[..33] + buf[33..];
      source' := h(buf[..]);
    }
    if j % 8 == 7 {
      byteV' := source'[(j % 256) / 8];
    }
    if Bit(byteV', j % 8) == 1 {
      Swap(input, i, j);
    }
  }

  /**
   The walk over first..last has dealt with everything outside i..j: those places hold what one round puts there,
   the places between the two cursors and outside the segment are untouched.
   */
  ghost predicate Walked(h: HashFn, seed: Bytes32, r: byte, before: seq<nat>, now: seq<nat>,
                         first: nat, last: int, i: int, j: int)
  {
    && |now| == |before|
    && forall k :: 0 <= k < |now| ==>
      now[k] == if first <= k < i || j < k <= last then before[RoundIndex(h, seed, r, |before|, k)] else before[k]
  }

  /** first..last is one of the two stretches that the round with this pivot mirrors onto themselves. */
  ghost predicate IsSegment(pivot: nat, n: nat, first: nat, last: int)
  {
    && pivot < n
    && ((first == 0 && last == pivot) || (first == pivot + 1 && last == n - 1))
  }

  lemma WalkStep(h: HashFn, seed: Bytes32, r: byte, before: seq<nat>, now: seq<nat>, next: seq<nat>,
                 first: nat, last: int, i: nat, j: nat)
    requires |before| > 0 && IsSegment(Pivot(h, seed, r, |before|), |before|, first, last)
    requires Walked(h, seed, r, before, now, first, last, i, j)
    requires first <= i < j && i + j == first + last
    requires next == if SwapBit(h, seed, r, j) then now[i := now[j]][j := now[i]] else now
    ensures Walked(h, seed, r, before, next, first, last, i + 1, j - 1)
  {
    var n := |before|;
    FlipValue(Pivot(h, seed, r, n), n, i);
    FlipValue(Pivot(h, seed, r, n), n, j);
    assert RoundIndex(h, seed, r, n, i) == if SwapBit(h, seed, r, j) then j else i;
    assert RoundIndex(h, seed, r, n, j) == if SwapBit(h, seed, r, j) then i else j;
  }

  lemma WalkDone(h: HashFn, seed: Bytes32, r: byte, before: seq<nat>, now: seq<nat>,
                 first: nat, last: int, i: nat, j: int)
    requires |before| > 0 && IsSegment(Pivot(h, seed, r, |before|), |before|, first, last)
    requires Walked(h, seed, r, before, now, first, last, i, j)
    requires first <= i && i + j == first + last && i - 1 <= j <= i
    ensures Walked(h, seed, r, before, now, first, last, last + 1, last)
  {
    if i == j && i < |before| {
      FlipValue(Pivot(h, seed, r, |before|), |before|, i);
    }
  }

  /** The hash and the byte for position j. */
  method ReadSource(h: HashFn, ghost seed: Bytes32, ghost r: byte, buf: array<byte>, j: nat) returns (source: Bytes32, byteV: byte)
    requires buf.Length == 37 && buf[..33] == seed + [r] && j < TWO_TO_32
    modifies buf
    ensures buf[..33] == old(buf[..33]) && source == Source(h, seed, r, j) && byteV == SourceByte(h, seed, r, j)
  {
    PutPosition(buf, j / 256);
    assert buf[..] == buf[..33] + buf[33..];
    source := h(buf[..]);
    byteV := source[(j % 256) / 8];
  }

  /** One step of the walk: the pair at the two cursors is done, and the caches are those of the next position down. */
  method FlipPair(h: HashFn, ghost seed: Bytes32, ghost r: byte, buf: array<byte>, byteV: byte, i: nat, input: array<nat>,
                  j: nat, source: Bytes32, ghost first: nat, ghost last: nat, ghost before: seq<nat>)
    returns (byteV': byte, source': Bytes32)
    requires buf.Length == 37 && buf as object != input && buf[..33] == seed + [r]
    requires 0 < input.Length <= TWO_TO_32 && IsSegment(Pivot(h, seed, r, input.Length), input.Length, first, last)
    requires |before| == input.Length && first <= i < j <= last && i + j == first + last
    requires CacheFor(h, seed, r, j, source, byteV) && Walked(h, seed, r, before, input[..], first, last, i, j)
    modifies buf, input
    ensures buf[..33] == seed + [r] && CacheFor(h, seed, r, j - 1, source', byteV')
    ensures Walked(h, seed, r, before, input[..], first, last, i + 1, j - 1)
    ensures multiset(input[..]) == old(multiset(input[..]))
  {
    ghost var now := input[..];
    byteV', source' := SwapOrNot(h, seed, r, buf, byteV, i, input, j, source);
    WalkStep(h, seed, r, before, now, input[..], first, last, i, j);
    CacheCarriesOver(h, seed, r, j);
  }

  /** One of the two mirrored walks of a round, from both ends of first..last to the middle. */
  method FlipSegment(h: HashFn, ghost seed: Bytes32, ghost r: byte, buf: array<byte>,
                     input: array<nat>, first: nat, last: nat, mirror: nat)
    requires buf.Length == 37 && buf as object != input && buf[..33] == seed + [r]
    requires 0 < input.Length <= TWO_TO_32 && IsSegment(Pivot(h, seed, r, input.Length), input.Length, first, last)
    requires mirror == (first + last + 1) / 2
    modifies buf, input
    ensures buf[..33] == old(buf[..33])
    ensures Walked(h, seed, r, old(input[..]), input[..], first, last, last + 1, last)
    ensures multiset(input[..]) == old(multiset(input[..]))
  {
    var source, byteV := ReadSource(h, seed, r, buf, last);
    var i, j: int := first, last;
    ghost var before := input[..];
    while i < mirror
      invariant first <= i <= mirror && i + j == first + last
      invariant buf[..33] == seed + [r]
      invariant CacheFor(h, seed, r, j, source, byteV)
      invariant Walked(h, seed, r, before, input[..], first, last, i, j)
      invariant multiset(input[..]) == multiset(before)
    {
      byteV, source := FlipPair(h, seed, r, buf, byteV, i, input, j, source, first, last, before);
      i, j := i + 1, j - 1;
    }
    WalkDone(h, seed, r, before, input[..], first, last, i, j);
  }

  /** One round applied to every place of the list. */
  ghost function AfterRound(h: HashFn, seed: Bytes32, r: byte, s: seq<nat>): seq<nat>
  {
    seq(|s|, k requires 0 <= k < |s| => s[RoundIndex(h, seed, r, |s|, k)])
  }

  lemma BothSegments(h: HashFn, seed: Bytes32, r: byte, s0: seq<nat>, s1: seq<nat>, s2: seq<nat>)
    requires |s0| > 0
    requires var p := Pivot(h, seed, r, |s0|);
      && Walked(h, seed, r, s0, s1, 0, p, p + 1, p)
      && Walked(h, seed, r, s1, s2, p + 1, |s0| - 1, |s0|, |s0| - 1)
    ensures s2 == AfterRound(h, seed, r, s0)
  {
    var p := Pivot(h, seed, r, |s0|);
    forall k | 0 <= k < |s0|
      ensures s2[k] == s0[RoundIndex(h, seed, r, |s0|, k)]
    {
      FlipValue(p, |s0|, k);
    }
  }

  method ShuffleRound(h: HashFn, seed: Bytes32, r: byte, buf: array<byte>, input: array<nat>)
    requires buf.Length == 37 && buf as object != input && buf[..32] == seed
    requires 0 < input.Length <= TWO_TO_32
    modifies buf, input
    ensures buf[..32] == seed
    ensures input[..] == AfterRound(h, seed, r, old(input[..]))
    ensures multiset(input[..]) == old(multiset(input[..]))
  {
    buf[32] := r;
    assert buf[..33] == seed + [r];
    var ph := h(buf[..33]);
    var pivot := FromLE(ph[..8]) % input.Length;
    ghost var s0 := input[..];
    FlipSegment(h, seed, r, buf, input, 0, pivot, (pivot + 1) / 2);
    ghost var s1 := input[..];
    FlipSegment(h, seed, r, buf, input, pivot + 1, input.Length - 1, (pivot + input.Length + 1) / 2);
    BothSegments(h, seed, r, s0, s1, input[..]);
    assert buf[..32] == buf[..33][..32];
  }

  /** The list once (going up) rounds 0..r-1 or (going down) rounds r..rounds-1 have been applied. */
  ghost function AfterRounds(h: HashFn, seed: Bytes32, rounds: nat, shuffle: bool, r: nat, s: seq<nat>): seq<nat>
    requires r <= rounds < 256
  {
    seq(|s|, k requires 0 <= k < |s| =>
      s[if shuffle then IndexBack(h, seed, r, |s|, k) else IndexFrom(h, seed, r, rounds, |s|, k)])
  }

  lemma NoRoundYet(h: HashFn, seed: Bytes32, rounds: nat, shuffle: bool, s: seq<nat>)
    requires rounds < 256
    ensures AfterRounds(h, seed, rounds, shuffle, if shuffle then 0 else rounds, s) == s
  {
  }

  lemma OneMoreRound(h: HashFn, seed: Bytes32, rounds: nat, shuffle: bool, r: nat, done: nat, s: seq<nat>)
    returns (done': nat)
    requires r < rounds < 256 && done == if shuffle then r else r + 1
    ensures done' == if shuffle then r + 1 else r
    ensures AfterRound(h, seed, r, AfterRounds(h, seed, rounds, shuffle, done, s))
         == AfterRounds(h, seed, rounds, shuffle, done', s)
  {
    done' := if shuffle then r + 1 else r;
  }

  lemma AllRoundsDone(h: HashFn, seed: Bytes32, rounds: nat, shuffle: bool, s: seq<nat>)
    requires rounds < 256
    ensures AfterRounds(h, seed, rounds, shuffle, if shuffle then rounds else 0, s)
         == if shuffle then Shuffled(h, seed, rounds, s) else Unshuffled(h, seed, rounds, s)
    ensures |s| <= 1 || rounds == 0 ==> AfterRounds(h, seed, rounds, shuffle, if shuffle then rounds else 0, s) == s
  {
  }

  /** The round loop, up from round 0 or down from round rounds-1. */
  method RunRounds(h: HashFn, rounds: nat, input: array<nat>, seed: Bytes32, shuffle: bool)
    returns (ghost done: nat)
    requires 0 < rounds < 256
    requires 1 < input.Length <= TWO_TO_32
    modifies input
    ensures done == if shuffle then rounds else 0
    ensures input[..] == AfterRounds(h, seed, rounds, shuffle, done, old(input[..]))
    ensures multiset(input[..]) == old(multiset(input[..]))
  {
    var buf := new byte[37](i => 0);
    var r: byte := if shuffle then 0 else rounds - 1;
    forall k | 0 <= k < 32 {
      buf[k] := seed[k];
    }
    ghost var before := old(input[..]);
    assert input[..] == before;
    NoRoundYet(h, seed, rounds, shuffle, before);
    done := if shuffle then 0 else rounds;
    while true
      invariant 0 <= r < rounds && done == if shuffle then r else r + 1
      invariant fresh(buf) && buf.Length == 37 && buf[..32] == seed
      invariant input[..] == AfterRounds(h, seed, rounds, shuffle, done, before)
      invariant multiset(input[..]) == multiset(before)
      decreases if shuffle then rounds - r else r
    {
      ShuffleRound(h, seed, r, buf, input);
      done := OneMoreRound(h, seed, rounds, shuffle, r, done, before);
      if shuffle {
        r := r + 1;
        if r == rounds {
          break;
        }
      } else {
        if r == 0 {
          break;
        }
        r := r - 1;
      }
    }
  }

  method InnerShuffleList(h: HashFn, shuffleRoundCount: nat, input: array<nat>, seed: Bytes32, shuffle: bool)
    returns (ok: bool)
    requires input.Length <= TWO_TO_32 || input.Length > MAX_SHUFFLE_LIST_SIZE
    modifies input
    ensures ok <==> input.Length <= MAX_SHUFFLE_LIST_SIZE
    ensures !ok ==> input[..] == old(input[..])
    ensures ok && !shuffle ==> input[..] == Unshuffled(h, seed, shuffleRoundCount % 256, old(input[..]))
    ensures ok && shuffle ==> input[..] == Shuffled(h, seed, shuffleRoundCount % 256, old(input[..]))
    ensures multiset(input[..]) == old(multiset(input[..]))
  {
    ghost var before := input[..];
    var rounds := shuffleRoundCount % 256;
    if input.Length <= 1 {
      AllRoundsDone(h, seed, rounds, shuffle, before);
      return true;
    }
    if input.Length > MAX_SHUFFLE_LIST_SIZE {
      return false;
    }
    if rounds == 0 {
      AllRoundsDone(h, seed, rounds, shuffle, before);
      return true;
    }
    ghost var done := RunRounds(h, rounds, input, seed, shuffle);
    AllRoundsDone(h, seed, rounds, shuffle, before);
    return true;
  }
}
