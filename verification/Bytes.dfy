/** Bytes, single bits and little-endian integers. */
module Bytes {
  import opened Arith

  type byte = b: int | 0 <= b < 256

  type Bytes32 = s: seq<byte> | |s| == 32 witness seq(32, _ => 0)

  /** 2^k for the eight bit positions of a byte. */
  function Pow2(k: nat): (p: nat)
    requires k < 8
    ensures p > 0
  {
    if k == 0 then 1 else if k == 1 then 2 else if k == 2 then 4 else if k == 3 then 8
    else if k == 4 then 16 else if k == 5 then 32 else if k == 6 then 64 else 128
  }

  /** (b >> k) & 1 */
  function Bit(b: byte, k: nat): (r: nat)
    requires k < 8
    ensures r < 2
  {
    (b / Pow2(k)) % 2
  }

  /** The low n bytes of v, least significant first (higher bytes are cut off, as by an unsigned cast). */
  function ToLE(v: nat, n: nat): (s: seq<byte>)
    ensures |s| == n
  {
    if n == 0 then [] else [v % 256] + ToLE(v / 256, n - 1)
  }

  function FromLE(s: seq<byte>): nat
  {
    if s == [] then 0 else s[0] + 256 * FromLE(s[1..])
  }

  function Pow256(n: nat): (p: nat)
    ensures p > 0
  {
    if n == 0 then 1 else 256 * Pow256(n - 1)
  }

  lemma {:induction false} FromLEToLE(v: nat, n: nat)
    requires v < Pow256(n)
    ensures FromLE(ToLE(v, n)) == v
  {
    if n > 0 {
      FromLEToLE(v / 256, n - 1);
      assert ToLE(v, n)[1..] == ToLE(v / 256, n - 1);
    }
  }

  lemma {:induction false} ToLEFromLE(s: seq<byte>)
    ensures FromLE(s) < Pow256(|s|)
    ensures ToLE(FromLE(s), |s|) == s
  {
    if s != [] {
      ToLEFromLE(s[1..]);
      assert FromLE(s) / 256 == FromLE(s[1..]);
      assert [s[0]] + s[1..] == s;
    }
  }

  function Word(a: nat, b: nat, c: nat, d: nat): nat
  {
    a + 0x100 * b + 0x1_0000 * c + 0x100_0000 * d
  }

  lemma FromLE2(s: seq<byte>)
    requires |s| == 2
    ensures FromLE(s) == Word(s[0], s[1], 0, 0)
  {
    assert FromLE(s[1..]) == s[1] by {
      assert s[1..][1..] == [];
    }
  }

  lemma FromLE4(s: seq<byte>)
    requires |s| == 4
    ensures FromLE(s) == Word(s[0], s[1], s[2], s[3])
  {
    assert FromLE(s[3..]) == s[3] by {
      assert s[3..][1..] == [];
    }
    assert FromLE(s[2..]) == s[2] + 256 * FromLE(s[3..]) by {
      assert s[2..][1..] == s[3..];
    }
    assert FromLE(s[1..]) == s[1] + 256 * FromLE(s[2..]) by {
      assert s[1..][1..] == s[2..];
    }
  }

  lemma FromLE8(s: seq<byte>)
    requires |s| == 8
    ensures FromLE(s) == Word(s[0], s[1], s[2], s[3]) + 0x1_0000_0000 * Word(s[4], s[5], s[6], s[7])
  {
    FromLE4(s[4..]);
    assert FromLE(s[3..]) == s[3] + 256 * FromLE(s[4..]) by {
      assert s[3..][1..] == s[4..];
    }
    assert FromLE(s[2..]) == s[2] + 256 * FromLE(s[3..]) by {
      assert s[2..][1..] == s[3..];
    }
    assert FromLE(s[1..]) == s[1] + 256 * FromLE(s[2..]) by {
      assert s[1..][1..] == s[2..];
    }
  }

  /** Bit k stands for 2^k. */
  lemma BitsOfSum(b: byte, k: nat, high: nat, bit: nat, low: nat)
    requires k < 8 && bit < 2 && low < Pow2(k) && b == Pow2(k) * (2 * high + bit) + low
    ensures Bit(b, k) == bit
    ensures Pow2(0) == 1 && (k > 0 ==> Pow2(k) == 2 * Pow2(k - 1))
  {
    DivModUnique(b, Pow2(k), 2 * high + bit, low);
  }
}
