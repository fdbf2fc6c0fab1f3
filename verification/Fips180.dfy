/** SHA-1 as FIPS 180-4 defines it on a whole message, over octets and 32-bit words. */
module Fips180 {
  import Bits
  import opened Bytes

  type Word = w: int | 0 <= w < 0x1_0000_0000

  /** Addition modulo 2 to the power 32. */
  function Add(a: Word, b: Word): Word { (a + b) % 0x1_0000_0000 }

  /** Section 3.2: the bitwise operations on words. */
  function And(x: Word, y: Word): Word { WordRange(); Bits.And(x, y, 32) }
  function Or(x: Word, y: Word): Word { WordRange(); Bits.Or(x, y, 32) }
  function Xor(x: Word, y: Word): Word { WordRange(); Bits.Xor(x, y, 32) }
  function Not(x: Word): Word { WordRange(); Bits.Not(x, 32) }

  lemma WordRange()
    ensures Bits.Pow2(32) == 0x1_0000_0000
  {
    assert Bits.Pow2(8) == 0x100;
    assert Bits.Pow2(16) == 0x1_0000;
    assert Bits.Pow2(24) == 0x100_0000;
  }

  /** Section 3.2: shifts by `n` places; bits shifted out of the word are dropped. */
  function Shl(n: nat, x: Word): Word
  {
    if n == 0 then x else Shl(n - 1, 2 * x % 0x1_0000_0000)
  }

  function Shr(n: nat, x: Word): Word
  {
    if n == 0 then x else Shr(n - 1, x / 2)
  }

  /** Section 3.2.5: circular left shift. */
  function Rotl(x: Word, n: nat): Word
    requires n <= 32
  {
    Or(Shl(n, x), Shr(32 - n, x))
  }

  datatype Hash = Hash(h0: Word, h1: Word, h2: Word, h3: Word, h4: Word)

  /** Section 5.3.1. */
  const INITIAL := Hash(0x67452301, 0xEFCDAB89, 0x98BADCFE, 0x10325476, 0xC3D2E1F0)

  /** Section 4.1.1: the functions f_t. */
  function Ch(x: Word, y: Word, z: Word): Word { Xor(And(x, y), And(Not(x), z)) }
  function Parity(x: Word, y: Word, z: Word): Word { Xor(Xor(x, y), z) }
  function Maj(x: Word, y: Word, z: Word): Word { Xor(Xor(And(x, y), And(x, z)), And(y, z)) }

  function RoundFunction(t: nat, x: Word, y: Word, z: Word): Word
  {
    if t < 20 then Ch(x, y, z) else if t < 40 then Parity(x, y, z)
    else if t < 60 then Maj(x, y, z) else Parity(x, y, z)
  }

  /** Section 4.2.1: the constants K_t. */
  function RoundConstant(t: nat): Word
  {
    if t < 20 then 0x5A827999 else if t < 40 then 0x6ED9EBA1 else if t < 60 then 0x8F1BBCDC else 0xCA62C1D6
  }

  /** Section 3.1: four octets as a word, the first octet the most significant. */
  function WordAt(block: seq<byte>, i: nat): Word
    requires 4 * i + 4 <= |block|
  {
    assert Pow256(4) == 0x1_0000_0000;
    FromBe(block[4 * i..4 * i + 4])
  }

  /** Section 6.1.2, step 1: the message schedule W_t. */
  function Schedule(block: seq<byte>, t: nat): Word
    requires |block| == 64
  {
    if t < 16 then WordAt(block, t)
    else Rotl(Xor(Xor(Xor(Schedule(block, t - 3), Schedule(block, t - 8)),
                      Schedule(block, t - 14)), Schedule(block, t - 16)), 1)
  }

  /** Section 6.1.2, step 3, one value of t: the working variables a, b, c, d, e. */
  function Round(v: Hash, t: nat, w: Word): Hash
  {
    var T := (Rotl(v.h0, 5) + RoundFunction(t, v.h1, v.h2, v.h3) + v.h4 + RoundConstant(t) + w) % 0x1_0000_0000;
    Hash(T, v.h0, Rotl(v.h1, 30), v.h2, v.h3)
  }

  /** The working variables after the first `t` rounds on a block. */
  function Rounds(h: Hash, block: seq<byte>, t: nat): Hash
    requires |block| == 64
  {
    if t == 0 then h else Round(Rounds(h, block, t - 1), t - 1, Schedule(block, t - 1))
  }

  /** Section 6.1.2, steps 2 to 4: the next intermediate hash value. */
  function Compress(h: Hash, block: seq<byte>): Hash
    requires |block| == 64
  {
    var v := Rounds(h, block, 80);
    Hash(Add(v.h0, h.h0), Add(v.h1, h.h1), Add(v.h2, h.h2), Add(v.h3, h.h3), Add(v.h4, h.h4))
  }

  /** The hash value after the first `n` blocks of `m`, 64 octets each. */
  function Blocks(h: Hash, m: seq<byte>, n: nat): Hash
    requires 64 * n <= |m|
  {
    if n == 0 then h else Compress(Blocks(h, m, n - 1), m[64 * (n - 1)..64 * n])
  }

  /** A 64-bit length field holds bit lengths modulo 2 to the power 64. */
  const LENGTH_RANGE: nat := 0x1_0000_0000_0000_0000

  /** Octets of value zero between the 0x80 octet and the length field. */
  function ZeroCount(n: nat): (z: nat)
    ensures z < 64 && (n + 1 + z) % 64 == 56 && (n + 1 + z + 8) % 64 == 0
  {
    (55 - n) % 64
  }

  /** The bit length of an `n`-octet message, as far as 64 bits hold it. */
  function BitLength(n: nat): nat
  {
    8 * n % LENGTH_RANGE
  }

  /** The bit length in eight octets. */
  function LengthField(n: nat): (s: seq<byte>)
    ensures |s| == 8
  {
    ToBe(BitLength(n), 8)
  }

  /** Section 5.1.1: a one bit, zero bits, and the bit length. */
  function Pad(m: seq<byte>): (p: seq<byte>)
    ensures |p| % 64 == 0
  {
    m + [0x80] + Zeros(ZeroCount(|m|)) + LengthField(|m|)
  }

  /** The message digest. */
  function Digest(m: seq<byte>): (d: seq<byte>)
    ensures |d| == 20
  {
    var h := Blocks(INITIAL, Pad(m), |Pad(m)| / 64);
    ToBe(h.h0, 4) + ToBe(h.h1, 4) + ToBe(h.h2, 4) + ToBe(h.h3, 4) + ToBe(h.h4, 4)
  }

  /** The congruence section 5.1.1 asks of the number `k` of zero bits after `l` message bits. */
  ghost predicate FillsBlock(l: nat, k: nat)
  {
    (l + 1 + k) % 512 == 448
  }

  lemma SmallestFill(n: nat, k: nat)
    requires FillsBlock(8 * n, k)
    ensures 7 + 8 * ZeroCount(n) <= k
  {
    NoSmallerFill(n, ZeroCount(n), (n + 1 + ZeroCount(n)) / 64, k, (8 * n + 1 + k) / 512);
  }

  lemma NoSmallerFill(n: nat, z: nat, q: int, k: nat, r: int)
    requires n + 1 + z == 64 * q + 56 && z < 64
    requires 8 * n + 1 + k == 512 * r + 448
    ensures 7 + 8 * z <= k
  {
  }

  lemma PaddingFills(n: nat)
    ensures FillsBlock(8 * n, 7 + 8 * ZeroCount(n))
  {
    var q := (n + 1 + ZeroCount(n)) / 64;
    assert 8 * n + 1 + (7 + 8 * ZeroCount(n)) == 512 * q + 448;
  }

  /**
   The padding is the one of section 5.1.1: k zero bits, k the smallest non-negative solution of
   l + 1 + k = 448 mod 512.
   */
  lemma PaddingIsSmallest(n: nat)
    ensures FillsBlock(8 * n, 7 + 8 * ZeroCount(n))
    ensures forall j: nat :: FillsBlock(8 * n, j) ==> 7 + 8 * ZeroCount(n) <= j
  {
    PaddingFills(n);
    forall j: nat | FillsBlock(8 * n, j) ensures 7 + 8 * ZeroCount(n) <= j {
      SmallestFill(n, j);
    }
  }

  /** Within the lengths the standard allows, the length field is the bit length itself. */
  lemma LengthFieldIsExact(n: nat)
    requires 8 * n < LENGTH_RANGE
    ensures FromBe(LengthField(n)) == 8 * n
  {
    assert 8 * n < Pow256(8) by { Pow256Values(); }
    assert BitLength(n) == 8 * n;
    FromToBe(8 * n, 8);
  }

  lemma NextBlock(h: Hash, m: seq<byte>, n: nat)
    requires 64 * n + 64 <= |m|
    ensures Blocks(h, m, n + 1) == Compress(Blocks(h, m, n), m[64 * n..64 * n + 64])
  {
    hide Compress;
  }

  /** Only the octets of the first `n` blocks matter. */
  lemma {:induction false} BlocksOfPrefix(h: Hash, m: seq<byte>, m': seq<byte>, n: nat)
    requires 64 * n <= |m| && 64 * n <= |m'| && m[..64 * n] == m'[..64 * n]
    ensures Blocks(h, m, n) == Blocks(h, m', n)
  {
    hide Compress;
    if n > 0 {
      assert m[..64 * n][..64 * (n - 1)] == m[..64 * (n - 1)];
      assert m'[..64 * n][..64 * (n - 1)] == m'[..64 * (n - 1)];
      assert m[..64 * n][64 * (n - 1)..] == m[64 * (n - 1)..64 * n];
      assert m'[..64 * n][64 * (n - 1)..] == m'[64 * (n - 1)..64 * n];
      BlocksOfPrefix(h, m, m', n - 1);
    }
  }
}
