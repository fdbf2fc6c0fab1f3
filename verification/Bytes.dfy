/**
 Octets, exclusive or, big-endian integers, and the boundary between characters and octets.

 An octet is an integer below 256. The source tests and masks single octets with constants; here
 `b & 0x80 != 0` is `b >= 0x80`, `b & 0x7F` is `b % 0x80` and `b & 0x0F` is `b % 0x10`.
 */
module Bytes {
  import Bits

  type byte = b: int | 0 <= b < 256

  datatype Option<+T> = None | Some(value: T)

  function XorOctet(a: byte, b: byte): byte
  {
    assert Bits.Pow2(8) == 256;
    Bits.Xor(a, b, 8)
  }

  lemma XorOctetTwice(a: byte, k: byte)
    ensures XorOctet(XorOctet(a, k), k) == a
  {
    assert Bits.Pow2(8) == 256;
    Bits.XorTwice(a, k, 8);
  }

  function Zeros(n: nat): (z: seq<byte>)
    ensures |z| == n
  {
    seq(n, i => 0)
  }

  /** 256 to the power `k`: the number of values `k` octets can hold. */
  function Pow256(k: nat): (p: nat)
    ensures p > 0
  {
    if k == 0 then 1 else 256 * Pow256(k - 1)
  }

  /** The `k` low-order octets of `n`, most significant first (network order). */
  function ToBe(n: nat, k: nat): (s: seq<byte>)
    ensures |s| == k
  {
    if k == 0 then [] else ToBe(n / 256, k - 1) + [n % 256]
  }

  /** The number a big-endian octet string denotes. */
  function FromBe(s: seq<byte>): (n: nat)
    ensures n < Pow256(|s|)
  {
    if s == [] then 0 else 256 * FromBe(s[..|s| - 1]) + s[|s| - 1]
  }

  lemma {:induction false} FromToBe(n: nat, k: nat)
    requires n < Pow256(k)
    ensures FromBe(ToBe(n, k)) == n
  {
    if k > 0 {
      FromToBe(n / 256, k - 1);
      assert ToBe(n, k)[..k - 1] == ToBe(n / 256, k - 1);
    }
  }

  lemma {:induction false} ToFromBe(s: seq<byte>)
    ensures ToBe(FromBe(s), |s|) == s
  {
    if s != [] {
      var n, last := FromBe(s[..|s| - 1]), s[|s| - 1];
      assert FromBe(s) / 256 == n && FromBe(s) % 256 == last;
      ToFromBe(s[..|s| - 1]);
    }
  }

  // What a big-endian number is in octets.

  lemma TwoOctets(s: seq<byte>)
    requires |s| == 2
    ensures FromBe(s) == 0x100 * (s[0] as int) + s[1] as int
  {
    assert s[..1] == [s[0]] && FromBe([s[0]]) == s[0];
  }

  lemma FromBeConcat(a: seq<byte>, b: seq<byte>)
    requires |b| == 2
    ensures FromBe(a + b) == 0x1_0000 * FromBe(a) + FromBe(b)
  {
    TwoOctets(b);
    assert (a + b)[..|a| + 1] == a + [b[0]] && (a + [b[0]])[..|a|] == a;
  }

  lemma FourOctets(s: seq<byte>)
    requires |s| == 4
    ensures FromBe(s) == 0x100_0000 * (s[0] as int) + 0x1_0000 * (s[1] as int) + 0x100 * (s[2] as int) + s[3] as int
  {
    hide FromBe;
    FromBeConcat(s[..2], s[2..]);
    assert s == s[..2] + s[2..];
    TwoOctets(s[..2]);
    TwoOctets(s[2..]);
  }

  /** Eight octets as a number, most significant first. */
  function Numeral(s: seq<byte>): nat
    requires |s| == 8
  {
    0x100_0000_0000_0000 * (s[0] as int) + 0x1_0000_0000_0000 * (s[1] as int) + 0x100_0000_0000 * (s[2] as int)
    + 0x1_0000_0000 * (s[3] as int) + 0x100_0000 * (s[4] as int) + 0x1_0000 * (s[5] as int)
    + 0x100 * (s[6] as int) + s[7] as int
  }

  lemma EightOctets(s: seq<byte>)
    requires |s| == 8
    ensures FromBe(s) == Numeral(s)
  {
    hide FromBe;
    FromBeConcat(s[..2], s[2..4]);
    FromBeConcat(s[..4], s[4..6]);
    FromBeConcat(s[..6], s[6..8]);
    assert s[..4] == s[..2] + s[2..4] && s[..6] == s[..4] + s[4..6] && s == s[..6] + s[6..8];
    TwoOctets(s[..2]);
    TwoOctets(s[2..4]);
    TwoOctets(s[4..6]);
    TwoOctets(s[6..8]);
  }

  lemma Pow256Values()
    ensures Pow256(2) == 0x1_0000
    ensures Pow256(8) == 0x1_0000_0000_0000_0000
  {
    assert Pow256(3) == 0x100_0000;
    assert Pow256(5) == 0x100_0000_0000;
    assert Pow256(6) == 0x1_0000_0000_0000;
    assert Pow256(7) == 0x100_0000_0000_0000;
  }

  /** The octets of a list of chunks, joined. */
  function Flat(chunks: seq<seq<byte>>): seq<byte>
  {
    if chunks == [] then [] else chunks[0] + Flat(chunks[1..])
  }

  lemma {:induction false} FlatOfConcat(a: seq<seq<byte>>, b: seq<seq<byte>>)
    ensures Flat(a + b) == Flat(a) + Flat(b)
  {
    if a == [] {
      assert a + b == b;
    } else {
      assert (a + b)[1..] == a[1..] + b;
      FlatOfConcat(a[1..], b);
    }
  }

  lemma FlatOfPrefix(chunks: seq<seq<byte>>, k: nat)
    requires k < |chunks|
    ensures Flat(chunks[..k + 1]) == Flat(chunks[..k]) + chunks[k]
  {
    FlatOfConcat(chunks[..k], [chunks[k]]);
    assert chunks[..k + 1] == chunks[..k] + [chunks[k]];
  }

  /** The octets of a character string; a `char` of the source is eight bits wide. */
  function Octets(s: string): (r: seq<byte>)
    ensures |r| == |s|
  {
    seq(|s|, i requires 0 <= i < |s| => s[i] as int % 256)
  }

  /** The character string that received octets make. */
  function Chars(b: seq<byte>): (s: string)
    ensures |s| == |b|
    ensures Octets(s) == b
  {
    seq(|b|, i requires 0 <= i < |b| => b[i] as char)
  }
}
