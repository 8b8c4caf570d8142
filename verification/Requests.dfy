/**
 Execution requests (pkg/payload_builder/execution_requests.go): the parser of the EIP-7685 request lists, against a
 printer of the same layout. The five record parsers share their loop, so they are one member here with the request
 type as a parameter; the layouts of the five records are told apart in DecodeOne and EncodeOne.
 */
module Requests {
  import opened Common
  import opened Arith
  import opened Bytes

  type Bytes20 = s: seq<byte> | |s| == 20 witness seq(20, _ => 0)
  type Bytes48 = s: seq<byte> | |s| == 48 witness seq(48, _ => 0)
  type Bytes96 = s: seq<byte> | |s| == 96 witness seq(96, _ => 0)
  type Uint64 = n: nat | n < TWO_TO_64

  datatype Request =
    | Deposit(pubkey: Bytes48, credentials: Bytes32, amount: Uint64, signature: Bytes96, index: Uint64)
    | Withdrawal(source: Bytes20, validator: Bytes48, amount: Uint64)
    | Consolidation(source: Bytes20, sourceKey: Bytes48, targetKey: Bytes48)
    | BuilderDeposit(pubkey: Bytes48, credentials: Bytes32, amount: Uint64, signature: Bytes96)
    | BuilderExit(source: Bytes20, pubkey: Bytes48)

  const TYPES: nat := 5
  const FIRST_BUILDER_TYPE: nat := 3 // the builder types exist from Gloas on

  type Kind = k: nat | k < TYPES

  function KindOf(r: Request): Kind
  {
    match r
    case Deposit(_, _, _, _, _) => 0
    case Withdrawal(_, _, _) => 1
    case Consolidation(_, _, _) => 2
    case BuilderDeposit(_, _, _, _) => 3
    case BuilderExit(_, _) => 4
  }

  function SizeOf(kind: Kind): (size: nat)
    ensures size > 0
  {
    if kind == 0 then 192 else if kind == 1 then 76 else if kind == 2 then 116 else if kind == 3 then 184 else 68
  }

  // ----- one record -----

  lemma FitsUint64(d: seq<byte>)
    requires |d| == 8
    ensures FromLE(d) < TWO_TO_64
  {
    ToLEFromLE(d);
    EightBytes();
  }

  lemma EightBytes()
    ensures Pow256(8) == TWO_TO_64
  {
    assert Pow256(4) == 0x1_0000_0000;
    assert Pow256(8) == 256 * (256 * (256 * (256 * Pow256(4))));
  }

  function U64(d: seq<byte>): Uint64
    requires |d| == 8
  {
    FitsUint64(d);
    FromLE(d)
  }

  function DecodeOne(kind: Kind, d: seq<byte>): (r: Request)
    requires |d| == SizeOf(kind)
    ensures KindOf(r) == kind
  {
    if kind == 0 then Deposit(d[0..48], d[48..80], U64(d[80..88]), d[88..184], U64(d[184..192]))
    else if kind == 1 then Withdrawal(d[0..20], d[20..68], U64(d[68..76]))
    else if kind == 2 then Consolidation(d[0..20], d[20..68], d[68..116])
    else if kind == 3 then BuilderDeposit(d[0..48], d[48..80], U64(d[80..88]), d[88..184])
    else BuilderExit(d[0..20], d[20..68])
  }

  /** The record layouts of EIP-6110, EIP-7002, EIP-7251 and EIP-8282. */
  function EncodeOne(r: Request): (d: seq<byte>)
    ensures |d| == SizeOf(KindOf(r))
  {
    match r
    case Deposit(pubkey, credentials, amount, signature, index) =>
      pubkey + credentials + ToLE(amount, 8) + signature + ToLE(index, 8)
    case Withdrawal(source, validator, amount) => source + validator + ToLE(amount, 8)
    case Consolidation(source, sourceKey, targetKey) => source + sourceKey + targetKey
    case BuilderDeposit(pubkey, credentials, amount, signature) => pubkey + credentials + ToLE(amount, 8) + signature
    case BuilderExit(source, pubkey) => source + pubkey
  }

  lemma U64RoundTrip(n: Uint64, d: seq<byte>)
    requires |d| == 8
    ensures U64(ToLE(n, 8)) == n
    ensures ToLE(U64(d), 8) == d
  {
    EightBytes();
    FromLEToLE(n, 8);
    ToLEFromLE(d);
  }

  lemma Join(d: seq<byte>, i: nat, j: nat, k: nat)
    requires i <= j <= k <= |d|
    ensures d[i..j] + d[j..k] == d[i..k]
  {
  }

  lemma EncodeOneDecodeOne(kind: Kind, d: seq<byte>)
    requires |d| == SizeOf(kind)
    ensures EncodeOne(DecodeOne(kind, d)) == d
  {
    assert d[0..|d|] == d;
    if kind == 0 || kind == 3 {
      Join(d, 0, 48, 80);
      Join(d, 0, 80, 88);
      Join(d, 0, 88, 184);
      U64RoundTrip(0, d[80..88]);
      if kind == 0 {
        Join(d, 0, 184, 192);
        U64RoundTrip(0, d[184..192]);
      }
    } else {
      Join(d, 0, 20, 68);
      if kind == 1 {
        Join(d, 0, 68, 76);
        U64RoundTrip(0, d[68..76]);
      } else if kind == 2 {
        Join(d, 0, 68, 116);
      }
    }
  }

  /** The middle one of three neighbouring fields. */
  lemma Field(before: seq<byte>, field: seq<byte>, after: seq<byte>, i: nat, j: nat)
    requires i == |before| && j == i + |field|
    ensures (before + field + after)[i..j] == field
  {
  }

  lemma DecodeDeposit(r: Request)
    requires r.Deposit?
    ensures DecodeOne(0, EncodeOne(r)) == r
  {
    var d := EncodeOne(r);
    var amount, index := ToLE(r.amount, 8), ToLE(r.index, 8);
    U64RoundTrip(r.amount, amount);
    U64RoundTrip(r.index, index);
    assert d[0..48] == r.pubkey;
    Field(r.pubkey, r.credentials, amount + r.signature + index, 48, 80);
    assert d == r.pubkey + r.credentials + (amount + r.signature + index);
    Field(r.pubkey + r.credentials, amount, r.signature + index, 80, 88);
    assert d == r.pubkey + r.credentials + amount + (r.signature + index);
    Field(r.pubkey + r.credentials + amount, r.signature, index, 88, 184);
    assert d[184..192] == index;
  }

  lemma DecodeBuilderDeposit(r: Request)
    requires r.BuilderDeposit?
    ensures DecodeOne(3, EncodeOne(r)) == r
  {
    var d, amount := EncodeOne(r), ToLE(r.amount, 8);
    U64RoundTrip(r.amount, amount);
    assert d[0..48] == r.pubkey;
    Field(r.pubkey, r.credentials, amount + r.signature, 48, 80);
    assert d == r.pubkey + r.credentials + (amount + r.signature);
    Field(r.pubkey + r.credentials, amount, r.signature, 80, 88);
    assert d[88..184] == r.signature;
  }

  lemma DecodeOneEncodeOne(r: Request)
    ensures DecodeOne(KindOf(r), EncodeOne(r)) == r
  {
    var d := EncodeOne(r);
    match r
    case Deposit(_, _, _, _, _) => DecodeDeposit(r);
    case Withdrawal(source, validator, amount) =>
      U64RoundTrip(amount, ToLE(amount, 8));
      assert d[0..20] == source && d[20..68] == validator && d[68..76] == ToLE(amount, 8);
    case Consolidation(source, sourceKey, targetKey) =>
      assert d[0..20] == source && d[20..68] == sourceKey && d[68..116] == targetKey;
    case BuilderDeposit(_, _, _, _) => DecodeBuilderDeposit(r);
    case BuilderExit(source, pubkey) =>
      assert d[0..20] == source && d[20..68] == pubkey;
  }

  /** The field is the bytes from offset `at` on. */
  ghost predicate FieldAt(d: seq<byte>, at: nat, field: seq<byte>)
  {
    at + |field| <= |d| && forall i :: 0 <= i < |field| ==> d[at + i] == field[i]
  }

  /** The number in the eight bytes from offset `at` on, least significant first. */
  ghost predicate NumberAt(d: seq<byte>, at: nat, n: nat)
  {
    && at + 8 <= |d|
    && n == Word(d[at], d[at + 1], d[at + 2], d[at + 3]) + TWO_TO_32 * Word(d[at + 4], d[at + 5], d[at + 6], d[at + 7])
  }

  /** The type bytes, sizes and offsets of EIP-6110, EIP-7002, EIP-7251 and EIP-8282. */
  ghost predicate LaidOut(kind: nat, r: Request, d: seq<byte>)
  {
    match r
    case Deposit(pubkey, credentials, amount, signature, index) =>
      && kind == 0 && |d| == 192 && FieldAt(d, 0, pubkey) && FieldAt(d, 48, credentials) && NumberAt(d, 80, amount)
      && FieldAt(d, 88, signature) && NumberAt(d, 184, index)
    case Withdrawal(source, validator, amount) =>
      kind == 1 && |d| == 76 && FieldAt(d, 0, source) && FieldAt(d, 20, validator) && NumberAt(d, 68, amount)
    case Consolidation(source, sourceKey, targetKey) =>
      kind == 2 && |d| == 116 && FieldAt(d, 0, source) && FieldAt(d, 20, sourceKey) && FieldAt(d, 68, targetKey)
    case BuilderDeposit(pubkey, credentials, amount, signature) =>
      && kind == 3 && |d| == 184 && FieldAt(d, 0, pubkey) && FieldAt(d, 48, credentials) && NumberAt(d, 80, amount)
      && FieldAt(d, 88, signature)
    case BuilderExit(source, pubkey) => kind == 4 && |d| == 68 && FieldAt(d, 0, source) && FieldAt(d, 20, pubkey)
  }

  lemma NumberIsAt(d: seq<byte>, at: nat)
    requires at + 8 <= |d|
    ensures NumberAt(d, at, U64(d[at..at + 8]))
  {
    FromLE8(d[at..at + 8]);
  }

  /** Every decoded record has its fields where the layouts put them. */
  lemma DecodedIsLaidOut(kind: Kind, d: seq<byte>)
    requires |d| == SizeOf(kind)
    ensures LaidOut(kind, DecodeOne(kind, d), d)
  {
    if kind == 0 || kind == 3 {
      NumberIsAt(d, 80);
      if kind == 0 {
        NumberIsAt(d, 184);
      }
    } else if kind == 1 {
      NumberIsAt(d, 68);
    }
  }

  // ----- cutting bytes into pieces of one size -----

  lemma Chunk(n: nat, i: nat, size: nat)
    requires i < n
    ensures 0 <= i * size <= (i + 1) * size <= n * size && (i + 1) * size == i * size + size
  {
    assert (n - (i + 1)) * size >= 0;
    assert n * size == (i + 1) * size + (n - (i + 1)) * size;
  }

  function Chunks(data: seq<byte>, size: nat, n: nat): (parts: seq<seq<byte>>)
    requires |data| == n * size
    ensures |parts| == n && forall i :: 0 <= i < n ==> |parts[i]| == size
    decreases n
  {
    if n == 0 then []
    else
      Chunk(n, n - 1, size);
      Chunks(data[..(n - 1) * size], size, n - 1) + [data[(n - 1) * size..]]
  }

  lemma {:induction false} ChunkAt(data: seq<byte>, size: nat, n: nat, i: nat)
    requires |data| == n * size && i < n
    ensures 0 <= i * size <= (i + 1) * size <= |data|
    ensures Chunks(data, size, n)[i] == data[i * size..(i + 1) * size]
    decreases n
  {
    Chunk(n, i, size);
    Chunk(n, n - 1, size);
    if i < n - 1 {
      ChunkAt(data[..(n - 1) * size], size, n - 1, i);
    }
  }

  lemma {:induction false} ConcatChunks(data: seq<byte>, size: nat, n: nat)
    requires |data| == n * size
    ensures Flat(Chunks(data, size, n)) == data
    decreases n
  {
    if n > 0 {
      Chunk(n, n - 1, size);
      var cut := (n - 1) * size;
      ConcatChunks(data[..cut], size, n - 1);
      assert Chunks(data, size, n)[..n - 1] == Chunks(data[..cut], size, n - 1);
    }
  }

  lemma {:induction false} ChunksConcat(parts: seq<seq<byte>>, size: nat)
    requires forall i :: 0 <= i < |parts| ==> |parts[i]| == size
    ensures |Flat(parts)| == |parts| * size
    ensures Chunks(Flat(parts), size, |parts|) == parts
  {
    if parts != [] {
      var n := |parts| - 1;
      ChunksConcat(parts[..n], size);
      Chunk(n + 1, n, size);
      var first, last := Flat(parts[..n]), parts[n];
      assert (first + last)[..n * size] == first && (first + last)[n * size..] == last;
    }
  }

  // ----- the records of one entry -----

  /** n records laid end to end. */
  function DecodeAll(kind: Kind, data: seq<byte>, n: nat): (rs: seq<Request>)
    requires |data| == n * SizeOf(kind)
    ensures |rs| == n
  {
    var parts := Chunks(data, SizeOf(kind), n);
    seq(n, i requires 0 <= i < n => DecodeOne(kind, parts[i]))
  }

  function Pieces(rs: seq<Request>): seq<seq<byte>>
  {
    seq(|rs|, i requires 0 <= i < |rs| => EncodeOne(rs[i]))
  }

  function EncodeAll(rs: seq<Request>): seq<byte>
  {
    Flat(Pieces(rs))
  }

  ghost predicate AllOf(kind: Kind, rs: seq<Request>)
  {
    forall i :: 0 <= i < |rs| ==> KindOf(rs[i]) == kind
  }

  lemma EncodeDecode(kind: Kind, data: seq<byte>, n: nat)
    requires |data| == n * SizeOf(kind)
    ensures AllOf(kind, DecodeAll(kind, data, n))
    ensures EncodeAll(DecodeAll(kind, data, n)) == data
  {
    var rs, parts := DecodeAll(kind, data, n), Chunks(data, SizeOf(kind), n);
    forall i | 0 <= i < n
      ensures Pieces(rs)[i] == parts[i]
    {
      EncodeOneDecodeOne(kind, parts[i]);
    }
    assert Pieces(rs) == parts;
    ConcatChunks(data, SizeOf(kind), n);
  }

  lemma DecodeEncode(kind: Kind, rs: seq<Request>)
    requires AllOf(kind, rs)
    ensures |EncodeAll(rs)| == |rs| * SizeOf(kind)
    ensures DecodeAll(kind, EncodeAll(rs), |rs|) == rs
  {
    var parts := Pieces(rs);
    ChunksConcat(parts, SizeOf(kind));
    forall i | 0 <= i < |rs|
      ensures DecodeOne(kind, parts[i]) == rs[i]
    {
      DecodeOneEncodeOne(rs[i]);
    }
  }

  // ----- what parsing means -----

  datatype Result<+T> = Ok(value: T) | Err(index: nat, error: Error)

  datatype Error = EmptyEntry | UnknownType | NotBeforeGloas | BadLength

  /** The requests of each type, by type. */
  type Lists = s: seq<seq<Request>> | |s| == TYPES witness seq(TYPES, _ => [])

  /** What is wrong with an entry. One that holds only its type stands for no requests and is never wrong. */
  function Wrong(entry: seq<byte>, gloas: bool): (error: Option<Error>)
  {
    if entry == [] then Some(EmptyEntry)
    else if |entry| == 1 then None
    else if entry[0] >= TYPES then Some(UnknownType)
    else if entry[0] >= FIRST_BUILDER_TYPE && !gloas then Some(NotBeforeGloas)
    else if (|entry| - 1) % SizeOf(entry[0]) != 0 then Some(BadLength)
    else None
  }

  /** Records of one type that this fork knows, one after the other. */
  ghost predicate IsEntryOf(entry: seq<byte>, rs: seq<Request>, kind: Kind, gloas: bool)
  {
    AllOf(kind, rs) && rs != [] && entry == [kind] + EncodeAll(rs) && (kind >= 3 ==> gloas)
  }

  ghost predicate AllRight(raw: seq<seq<byte>>, gloas: bool)
  {
    forall i :: 0 <= i < |raw| ==> Wrong(raw[i], gloas).None?
  }

  /** Some requests of this type are in the entry. */
  predicate Holds(entry: seq<byte>, kind: Kind)
  {
    |entry| > 1 && entry[0] == kind
  }

  /** The requests in the last entry that holds any of this type: a later entry replaces an earlier one. */
  ghost function LastOf(raw: seq<seq<byte>>, kind: Kind, gloas: bool): seq<Request>
    requires AllRight(raw, gloas)
  {
    if raw == [] then []
    else
      var entry := raw[|raw| - 1];
      if Holds(entry, kind) then RecordsOf(entry, gloas) else LastOf(raw[..|raw| - 1], kind, gloas)
  }

  ghost function RecordsOf(entry: seq<byte>, gloas: bool): seq<Request>
    requires |entry| > 1 && Wrong(entry, gloas).None?
  {
    var n := (|entry| - 1) / SizeOf(entry[0]);
    Multiple(|entry| - 1, SizeOf(entry[0]));
    DecodeAll(entry[0], entry[1..], n)
  }

  lemma Multiple(length: nat, size: nat)
    requires size > 0
    ensures length % size == 0 <==> length == (length / size) * size
    ensures length > 0 && length % size == 0 ==> length / size > 0
  {
    assert length == size * (length / size) + length % size;
  }

  ghost predicate IsParsed(lists: Lists, raw: seq<seq<byte>>, gloas: bool)
    requires AllRight(raw, gloas)
  {
    forall kind: Kind :: lists[kind] == LastOf(raw, kind, gloas)
  }

  // ----- the parser -----

  method ParseRecords(kind: Kind, data: seq<byte>) returns (rs: Option<seq<Request>>)
    ensures rs.Some? <==> |data| % SizeOf(kind) == 0
    ensures rs.Some? ==> |data| == (|data| / SizeOf(kind)) * SizeOf(kind)
    ensures rs.Some? ==> rs.value == DecodeAll(kind, data, |data| / SizeOf(kind))
  {
    var size := SizeOf(kind);
    Multiple(|data|, size);
    if |data| % size != 0 {
      return None;
    }
    var count := |data| / size;
    var list := [];
    for i := 0 to count
      invariant list == DecodeAll(kind, data, count)[..i]
    {
      ChunkAt(data, size, count, i);
      var d := data[i * size..(i + 1) * size];
      list := list + [DecodeOne(kind, d)];
    }
    return Some(list);
  }

  method Parse(raw: seq<seq<byte>>, gloas: bool) returns (result: Result<Lists>)
    ensures result.Ok? <==> AllRight(raw, gloas)
    ensures result.Ok? ==> IsParsed(result.value, raw, gloas)
    ensures result.Err? ==>
      && result.index < |raw| && AllRight(raw[..result.index], gloas)
      && Wrong(raw[result.index], gloas) == Some(result.error)
    ensures result.Err? ==>
      var entry := raw[result.index];
      && (result.error == EmptyEntry <==> entry == [])
      && (result.error == UnknownType <==> entry != [] && entry[0] > 4)
      && (result.error == NotBeforeGloas <==> entry != [] && 3 <= entry[0] <= 4 && !gloas)
  {
    var lists: Lists := seq(TYPES, _ => []);
    for i := 0 to |raw|
      invariant AllRight(raw[..i], gloas) && IsParsed(lists, raw[..i], gloas)
    {
      var entry := raw[i];
      OneMoreEntry(raw[..i], entry, gloas);
      assert raw[..i + 1] == raw[..i] + [entry];
      if entry == [] {
        return Err(i, EmptyEntry);
      }
      if |entry| > 1 {
        if entry[0] >= TYPES {
          return Err(i, UnknownType);
        }
        if entry[0] >= FIRST_BUILDER_TYPE && !gloas {
          return Err(i, NotBeforeGloas);
        }
        var rs := ParseRecords(entry[0], entry[1..]);
        if rs.None? {
          return Err(i, BadLength);
        }
        lists := lists[entry[0] := rs.value];
      }
    }
    assert raw[..|raw|] == raw;
    return Ok(lists);
  }

  lemma OneMoreEntry(raw: seq<seq<byte>>, entry: seq<byte>, gloas: bool)
    requires AllRight(raw, gloas)
    ensures AllRight(raw + [entry], gloas) <==> Wrong(entry, gloas).None?
    ensures Wrong(entry, gloas).None? ==> forall kind: Kind ::
      LastOf(raw + [entry], kind, gloas) == if Holds(entry, kind) then RecordsOf(entry, gloas) else LastOf(raw, kind, gloas)
  {
    assert (raw + [entry])[..|raw|] == raw;
    assert (raw + [entry])[|raw|] == entry;
  }

  // ----- the printer -----

  /** The entries of the types below kind, in order, without those that have no requests. */
  ghost function PrintBelow(lists: Lists, kind: nat): seq<seq<byte>>
    requires kind <= TYPES
  {
    if kind == 0 then []
    else
      var before := PrintBelow(lists, kind - 1);
      if lists[kind - 1] == [] then before else before + [[kind - 1] + EncodeAll(lists[kind - 1])]
  }

  ghost function Print(lists: Lists): seq<seq<byte>>
  {
    PrintBelow(lists, TYPES)
  }

  /** Every request is in the list of its type, and before Gloas there are no builder requests. */
  ghost predicate WellTyped(lists: Lists, gloas: bool)
  {
    && (forall kind: Kind :: AllOf(kind, lists[kind]))
    && (forall kind: Kind :: kind >= FIRST_BUILDER_TYPE && !gloas ==> lists[kind] == [])
  }

  /** Types strictly increase, and every entry has data. */
  ghost predicate Canonical(raw: seq<seq<byte>>)
  {
    && (forall i :: 0 <= i < |raw| ==> |raw[i]| > 1)
    && forall i, j :: 0 <= i < j < |raw| ==> raw[i][0] < raw[j][0]
  }

  lemma NonEmptyEncoding(kind: Kind, rs: seq<Request>)
    requires AllOf(kind, rs) && rs != []
    ensures |EncodeAll(rs)| == |rs| * SizeOf(kind) > 0
  {
    DecodeEncode(kind, rs);
    MulAtLeast(SizeOf(kind), |rs|);
  }

  lemma PrintedEntry(kind: Kind, rs: seq<Request>, gloas: bool)
    requires AllOf(kind, rs) && rs != [] && (kind >= FIRST_BUILDER_TYPE ==> gloas)
    ensures Holds([kind] + EncodeAll(rs), kind) && Wrong([kind] + EncodeAll(rs), gloas).None?
    ensures RecordsOf([kind] + EncodeAll(rs), gloas) == rs
  {
    NonEmptyEncoding(kind, rs);
    DecodeEncode(kind, rs);
    EntryOf(kind, EncodeAll(rs), |rs|, gloas);
  }

  lemma EntryOf(kind: Kind, data: seq<byte>, n: nat, gloas: bool)
    requires |data| == n * SizeOf(kind) > 0 && (kind >= FIRST_BUILDER_TYPE ==> gloas)
    ensures Holds([kind] + data, kind) && Wrong([kind] + data, gloas).None?
    ensures RecordsOf([kind] + data, gloas) == DecodeAll(kind, data, n)
  {
    DivModUnique(n * SizeOf(kind), SizeOf(kind), n, 0);
    assert ([kind] + data)[1..] == data;
  }

  /** An entry is accepted exactly if it is a type alone, or the printed form of some requests that this fork knows. */
  lemma RightIffPrinted(entry: seq<byte>, gloas: bool)
    ensures Wrong(entry, gloas).None? <==>
      |entry| == 1 || exists kind: Kind, rs: seq<Request> :: IsEntryOf(entry, rs, kind, gloas)
  {
    if Wrong(entry, gloas).None? && |entry| > 1 {
      EntryBytes(entry, gloas);
      var n := (|entry| - 1) / SizeOf(entry[0]);
      Multiple(|entry| - 1, SizeOf(entry[0]));
      EncodeDecode(entry[0], entry[1..], n);
      assert IsEntryOf(entry, RecordsOf(entry, gloas), entry[0], gloas);
    }
    if kind: Kind, rs: seq<Request> :| IsEntryOf(entry, rs, kind, gloas) {
      PrintedEntry(kind, rs, gloas);
    }
  }

  /** What entries parse to when their lists are exactly those below a bound. */
  ghost predicate ParsesBelow(raw: seq<seq<byte>>, lists: Lists, bound: nat, gloas: bool)
  {
    && AllRight(raw, gloas)
    && forall kind: Kind {:trigger LastOf(raw, kind, gloas)} :: LastOf(raw, kind, gloas) == if kind < bound then lists[kind] else []
  }

  lemma {:induction false} ParsePrintBelow(lists: Lists, bound: nat, gloas: bool)
    requires bound <= TYPES && WellTyped(lists, gloas)
    ensures ParsesBelow(PrintBelow(lists, bound), lists, bound, gloas)
    ensures CanonicalBelow(PrintBelow(lists, bound), bound)
  {
    if bound > 0 {
      var before, kind: Kind := PrintBelow(lists, bound - 1), bound - 1;
      ParsePrintBelow(lists, bound - 1, gloas);
      PrintOneMore(before, lists, kind, gloas);
      assert PrintBelow(lists, bound) == if lists[kind] == [] then before else before + [[kind] + EncodeAll(lists[kind])];
    }
  }

  lemma PrintOneMore(raw: seq<seq<byte>>, lists: Lists, kind: Kind, gloas: bool)
    requires WellTyped(lists, gloas) && ParsesBelow(raw, lists, kind, gloas) && CanonicalBelow(raw, kind)
    ensures lists[kind] == [] ==> ParsesBelow(raw, lists, kind + 1, gloas) && CanonicalBelow(raw, kind + 1)
    ensures lists[kind] != [] ==> ParsesBelow(raw + [[kind] + EncodeAll(lists[kind])], lists, kind + 1, gloas)
    ensures lists[kind] != [] ==> CanonicalBelow(raw + [[kind] + EncodeAll(lists[kind])], kind + 1)
  {
    if lists[kind] != [] {
      PrintedEntry(kind, lists[kind], gloas);
      AppendEntry(raw, [kind] + EncodeAll(lists[kind]), lists, kind, gloas);
    }
  }

  lemma AppendEntry(raw: seq<seq<byte>>, entry: seq<byte>, lists: Lists, kind: Kind, gloas: bool)
    requires ParsesBelow(raw, lists, kind, gloas) && CanonicalBelow(raw, kind)
    requires Holds(entry, kind) && Wrong(entry, gloas).None? && RecordsOf(entry, gloas) == lists[kind]
    ensures ParsesBelow(raw + [entry], lists, kind + 1, gloas) && CanonicalBelow(raw + [entry], kind + 1)
  {
    OneMoreEntry(raw, entry, gloas);
  }

  ghost predicate CanonicalBelow(raw: seq<seq<byte>>, bound: nat)
  {
    Canonical(raw) && forall i :: 0 <= i < |raw| ==> raw[i][0] < bound
  }

  /** Printed requests parse back to themselves: whatever the parser returns for them is what was printed. */
  lemma ParsePrint(lists: Lists, gloas: bool, parsed: Lists)
    requires WellTyped(lists, gloas)
    ensures AllRight(Print(lists), gloas)
    ensures IsParsed(parsed, Print(lists), gloas) <==> parsed == lists
  {
    ParsePrintBelow(lists, TYPES, gloas);
    if IsParsed(parsed, Print(lists), gloas) {
      forall kind: Kind
        ensures parsed[kind] == lists[kind]
      {
        assert parsed[kind] == LastOf(Print(lists), kind, gloas);
      }
      assert forall k :: 0 <= k < TYPES ==> parsed[k] == lists[k];
    }
  }

  lemma {:induction false} ParsedAreTyped(raw: seq<seq<byte>>, kind: Kind, gloas: bool)
    requires AllRight(raw, gloas)
    ensures AllOf(kind, LastOf(raw, kind, gloas))
    ensures kind >= FIRST_BUILDER_TYPE && !gloas ==> LastOf(raw, kind, gloas) == []
  {
    if raw != [] {
      var n := |raw| - 1;
      ParsedAreTyped(raw[..n], kind, gloas);
      if Holds(raw[n], kind) {
        Multiple(|raw[n]| - 1, SizeOf(kind));
        EncodeDecode(kind, raw[n][1..], (|raw[n]| - 1) / SizeOf(kind));
      }
    }
  }

  /** The only entry of a type, in a canonical input. */
  lemma {:induction false} OnlyEntry(raw: seq<seq<byte>>, i: nat, gloas: bool)
    requires AllRight(raw, gloas) && Canonical(raw) && i < |raw|
    ensures raw[i][0] < TYPES && LastOf(raw, raw[i][0], gloas) == RecordsOf(raw[i], gloas)
  {
    var n := |raw| - 1;
    if i < n {
      assert Canonical(raw[..n]);
      OnlyEntry(raw[..n], i, gloas);
    }
  }

  lemma {:induction false} NoEntry(raw: seq<seq<byte>>, kind: Kind, gloas: bool)
    requires AllRight(raw, gloas) && forall i :: 0 <= i < |raw| ==> !Holds(raw[i], kind)
    ensures LastOf(raw, kind, gloas) == []
  {
    if raw != [] {
      NoEntry(raw[..|raw| - 1], kind, gloas);
    }
  }

  lemma EntryBytes(entry: seq<byte>, gloas: bool)
    requires |entry| > 1 && Wrong(entry, gloas).None?
    ensures RecordsOf(entry, gloas) != [] && [entry[0]] + EncodeAll(RecordsOf(entry, gloas)) == entry
  {
    Multiple(|entry| - 1, SizeOf(entry[0]));
    EncodeDecode(entry[0], entry[1..], (|entry| - 1) / SizeOf(entry[0]));
  }

  ghost predicate SplitAt(raw: seq<seq<byte>>, n: nat, bound: nat)
    requires Canonical(raw)
  {
    n <= |raw| && forall i :: 0 <= i < |raw| ==> (i < n <==> raw[i][0] < bound)
  }

  lemma SplitMoves(raw: seq<seq<byte>>, n: nat, kind: Kind)
    requires Canonical(raw) && SplitAt(raw, n, kind)
    ensures n < |raw| && raw[n][0] == kind ==> SplitAt(raw, n + 1, kind + 1)
    ensures !(n < |raw| && raw[n][0] == kind) ==>
      SplitAt(raw, n, kind + 1) && forall i :: 0 <= i < |raw| ==> !Holds(raw[i], kind)
  {
  }

  lemma FoundEntry(lists: Lists, raw: seq<seq<byte>>, gloas: bool, n: nat, kind: Kind)
    requires AllRight(raw, gloas) && Canonical(raw) && IsParsed(lists, raw, gloas) && n < |raw| && raw[n][0] == kind
    ensures lists[kind] != [] && [kind] + EncodeAll(lists[kind]) == raw[n]
  {
    OnlyEntry(raw, n, gloas);
    EntryBytes(raw[n], gloas);
  }

  /** A canonical input is printed back, type by type: n entries are of types below the bound. */
  lemma {:induction false} PrintParseBelow(lists: Lists, raw: seq<seq<byte>>, gloas: bool, bound: nat) returns (n: nat)
    requires bound <= TYPES && AllRight(raw, gloas) && Canonical(raw) && IsParsed(lists, raw, gloas)
    ensures SplitAt(raw, n, bound) && PrintBelow(lists, bound) == raw[..n]
  {
    n := 0;
    if bound > 0 {
      var kind: Kind := bound - 1;
      n := PrintParseBelow(lists, raw, gloas, kind);
      SplitMoves(raw, n, kind);
      if n < |raw| && raw[n][0] == kind {
        FoundEntry(lists, raw, gloas, n, kind);
        assert raw[..n + 1] == raw[..n] + [raw[n]];
        n := n + 1;
      } else {
        NoEntry(raw, kind, gloas);
      }
    }
  }

  /** Printing what was parsed gives back the bytes exactly when the input was canonical. */
  lemma PrintParse(lists: Lists, raw: seq<seq<byte>>, gloas: bool)
    requires AllRight(raw, gloas) && IsParsed(lists, raw, gloas)
    ensures Print(lists) == raw <==> Canonical(raw)
  {
    if Canonical(raw) {
      var n := PrintParseBelow(lists, raw, gloas, TYPES);
      if n < |raw| {
        OnlyEntry(raw, n, gloas);
      }
      assert raw[..n] == raw;
    }
    forall kind: Kind
      ensures AllOf(kind, lists[kind]) && (kind >= FIRST_BUILDER_TYPE && !gloas ==> lists[kind] == [])
    {
      ParsedAreTyped(raw, kind, gloas);
    }
    ParsePrintBelow(lists, TYPES, gloas);
  }
}
