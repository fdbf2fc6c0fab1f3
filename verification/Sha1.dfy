/** The streaming hash of include/webserver/sha1.hpp, proved against the one-shot definition. */
module Sha1 {
  import Bits
  import opened Bytes
  import opened Fips180

  /** The round function as the source writes it, with `|` where the standard has exclusive or. */
  function OrForm(t: nat, x: Word, y: Word, z: Word): Word
  {
    if t < 20 then Or(And(x, y), And(Not(x), z))
    else if 40 <= t < 60 then Or(Or(And(x, y), And(x, z)), And(y, z))
    else Xor(Xor(x, y), z)
  }

  lemma OrFormAgrees(t: nat, x: Word, y: Word, z: Word)
    ensures OrForm(t, x, y, z) == RoundFunction(t, x, y, z)
  {
    if t < 20 { Bits.ChooseOrXor(x, y, z, 32); }
    if 40 <= t < 60 { Bits.MajorityOrXor(x, y, z, 32); }
  }

  /** Four octets shifted into place; the shifted values share no bit, so `|` is addition. */
  function Join(b0: int, b1: int, b2: int, b3: int): int
  {
    b0 * 0x100_0000 + b1 * 0x1_0000 + b2 * 0x100 + b3
  }

  /** Shifting four octets into place is reading them as a big-endian number. */
  lemma WordFromOctets(s: seq<byte>)
    requires |s| == 4
    ensures FromBe(s) == Join(s[0], s[1], s[2], s[3])
  {
    FourOctets(s);
  }

  /** Wrapping after each addition or once at the end is the same. */
  lemma SumWraps(a: Word, b: Word, c: Word, d: Word, e: Word)
    ensures Add(Add(Add(Add(a, b), c), d), e) == (a + b + c + d + e) % 0x1_0000_0000
  {
    WrapThenAdd(a + b, c);
    WrapThenAdd(a + b + c, d);
    WrapThenAdd(a + b + c + d, e);
  }

  lemma WrapThenAdd(x: nat, b: Word)
    ensures Add(x % 0x1_0000_0000, b) == (x + b) % 0x1_0000_0000
  {
  }

  /** The message schedule, filled in place from left to right. */
  method FillSchedule(b: seq<byte>) returns (w: array<Word>)
    requires |b| == 64
    ensures fresh(w) && w.Length == 80
    ensures forall j :: 0 <= j < 80 ==> w[j] == Schedule(b, j)
  {
    hide Xor, Or, Shl, Shr, Join, FromBe;
    w := new Word[80];
    for i := 0 to 16
      invariant forall j :: 0 <= j < i ==> w[j] == Schedule(b, j)
    {
      ghost var s := b[4 * i..4 * i + 4];
      WordFromOctets(s);
      assert Join(b[i * 4], b[i * 4 + 1], b[i * 4 + 2], b[i * 4 + 3]) == WordAt(b, i);
      w[i] := Join(b[i * 4], b[i * 4 + 1], b[i * 4 + 2], b[i * 4 + 3]);
    }
    for i := 16 to 80
      invariant forall j :: 0 <= j < i ==> w[j] == Schedule(b, j)
    {
      var v := Xor(Xor(Xor(w[i - 3], w[i - 8]), w[i - 14]), w[i - 16]);
      w[i] := Or(Shl(1, v), Shr(31, v));
    }
  }

  /** The source's choice of round function and constant. */
  method RoundChoice(i: nat, bv: Word, c: Word, d: Word) returns (f: Word, k: Word)
    ensures f == RoundFunction(i, bv, c, d) && k == RoundConstant(i)
    ensures var n := if i < 20 then 2 else if i < 40 then 3 else if i < 60 then 5 else 10;
      k * k <= n * 0x1000_0000_0000_0000 < (k + 1) * (k + 1)
  {
    if i < 20 {
      f := Or(And(bv, c), And(Not(bv), d));
      k := 0x5A827999;
    } else if i < 40 {
      f := Xor(Xor(bv, c), d);
      k := 0x6ED9EBA1;
    } else if i < 60 {
      f := Or(Or(And(bv, c), And(bv, d)), And(c, d));
      k := 0x8F1BBCDC;
    } else {
      f := Xor(Xor(bv, c), d);
      k := 0xCA62C1D6;
    }
    OrFormAgrees(i, bv, c, d);
  }

  /** One pass of the source's round loop: the five variables rotate. */
  method Rotate(i: nat, v: Hash, w: Word) returns (r: Hash)
    ensures r == Round(v, i, w)
  {
    hide Rotl, RoundFunction, RoundConstant;
    var Hash(a, bv, c, d, e) := v;
    var f, k := RoundChoice(i, bv, c, d);
    var tmp := Add(Add(Add(Add(Rotl(a, 5), f), e), k), w);
    SumWraps(Rotl(a, 5), f, e, k, w);
    e := d;
    d := c;
    c := Rotl(bv, 30);
    bv := a;
    a := tmp;
    r := Hash(a, bv, c, d, e);
  }

  /** Number of whole blocks in `n` octets. */
  function WholeBlocks(n: nat): (k: nat)
    ensures 64 * k <= n < 64 * k + 64
  {
    n / 64
  }

  class Sha1 {
    var h0: Word
    var h1: Word
    var h2: Word
    var h3: Word
    var h4: Word
    var bits: nat
    var buf: seq<byte>

    /** Every octet given to `Update` so far. */
    ghost var absorbed: seq<byte>

    function State(): Hash
      reads this
    {
      Hash(h0, h1, h2, h3, h4)
    }

    /** Whole blocks are in the hash value, the rest is in `buf`, and `bits` is the length. */
    ghost predicate Valid()
      reads this
    {
      var n := WholeBlocks(|absorbed|);
      && bits == BitLength(|absorbed|)
      && buf == absorbed[64 * n..]
      && State() == Blocks(INITIAL, absorbed, n)
    }

    constructor ()
      ensures Valid() && absorbed == []
    {
      h0, h1, h2, h3, h4 := 0x67452301, 0xEFCDAB89, 0x98BADCFE, 0x10325476, 0xC3D2E1F0;
      bits := 0;
      buf := [];
      absorbed := [];
    }

    method Block(b: seq<byte>)
      requires |b| == 64
      modifies this`h0, this`h1, this`h2, this`h3, this`h4
      ensures State() == Compress(old(State()), b)
    {
      hide Round, Schedule;
      var w := FillSchedule(b);
      var v := State();
      for i := 0 to 80
        invariant v == Rounds(State(), b, i)
        invariant State() == old(State())
        invariant forall j :: 0 <= j < 80 ==> w[j] == Schedule(b, j)
      {
        v := Rotate(i, v, w[i]);
      }
      h0, h1, h2, h3, h4 := Add(h0, v.h0), Add(h1, v.h1), Add(h2, v.h2), Add(h3, v.h3), Add(h4, v.h4);
    }

    /** Appends octets; every block that is complete is compressed and dropped from the buffer. */
    method Update(s: seq<byte>)
      requires Valid()
      modifies this
      ensures Valid() && absorbed == old(absorbed) + s
    {
      hide Compress, BitLength, Blocks, WholeBlocks;
      ghost var n: nat := WholeBlocks(|absorbed|);
      LengthsAdd(|absorbed|, |s|);
      BlocksOfPrefix(INITIAL, absorbed, absorbed + s, n);
      bits := (bits + |s| * 8) % LENGTH_RANGE;
      buf := buf + s;
      absorbed := absorbed + s;
      while |buf| >= 64
        invariant 64 * n <= |absorbed| && buf == absorbed[64 * n..]
        invariant State() == Blocks(INITIAL, absorbed, n)
        invariant absorbed == old(absorbed) + s && bits == BitLength(|absorbed|)
      {
        Block(buf[..64]);
        RestOfBlocks(absorbed, n);
        NextBlock(INITIAL, absorbed, n);
        buf := buf[64..];
        n := n + 1;
      }
    }

    /** Pads what is buffered and returns the hash value. A second call would start from a changed one. */
    method Finalize() returns (out: seq<byte>)
      requires Valid()
      modifies this`h0, this`h1, this`h2, this`h3, this`h4
      ensures out == Digest(absorbed)
    {
      hide Compress, Pad, BitLength, Blocks;
      var t := PaddedTail(buf, bits);
      ghost var n: nat := WholeBlocks(|absorbed|);
      ghost var p := absorbed[..64 * n] + t;
      TailOfPad(absorbed, n);
      BlocksOfPrefix(INITIAL, absorbed, p, n);
      var off := 0;
      ghost var k: nat := 0;
      while off < |t|
        invariant off == 64 * k <= |t|
        invariant State() == Blocks(INITIAL, p, n + k)
      {
        Block(t[off..off + 64]);
        assert t[off..off + 64] == p[64 * (n + k)..64 * (n + k) + 64];
        NextBlock(INITIAL, p, n + k);
        off := off + 64;
        k := k + 1;
      }
      return ToBe(h0, 4) + ToBe(h1, 4) + ToBe(h2, 4) + ToBe(h3, 4) + ToBe(h4, 4);
    }
  }

  /** The padding loops of `finalize`: a one bit, zero octets up to 56 of 64, the length. */
  method PaddedTail(buf: seq<byte>, bits: nat) returns (t: seq<byte>)
    ensures t == buf + [0x80] + Zeros(ZeroCount(|buf|)) + ToBe(bits, 8)
  {
    t := buf;
    t := t + [0x80];
    ghost var zeros: nat := 0;
    while |t| % 64 != 56
      invariant zeros <= ZeroCount(|buf|)
      invariant t == buf + [0x80] + Zeros(zeros)
      decreases ZeroCount(|buf|) - zeros
    {
      t := t + [0x00];
      zeros := zeros + 1;
    }
    t := PushLength(t, bits);
  }

  /** Eight octets of the bit length, most significant first. */
  method PushLength(head: seq<byte>, bits: nat) returns (t: seq<byte>)
    ensures t == head + ToBe(bits, 8)
  {
    t := head;
    var i: nat := 8;
    while i > 0
      invariant i <= 8
      invariant t == head + ToBe(ShrOctets(bits, i), 8 - i)
    {
      i := i - 1;
      ShrOctetsStep(bits, i);
      t := t + [ShrOctets(bits, i) % 256];
    }
  }

  /** `n >> 8 * i`. */
  function ShrOctets(n: nat, i: nat): nat
  {
    if i == 0 then n else ShrOctets(n / 256, i - 1)
  }

  lemma {:induction false} ShrOctetsStep(n: nat, i: nat)
    ensures ShrOctets(n, i + 1) == ShrOctets(n, i) / 256
  {
    if i > 0 { ShrOctetsStep(n / 256, i - 1); }
  }

  lemma LengthsAdd(n: nat, k: nat)
    ensures (BitLength(n) + k * 8) % LENGTH_RANGE == BitLength(n + k)
  {
  }

  lemma ZeroCountPeriod(n: nat, k: nat)
    ensures ZeroCount(n + 64 * k) == ZeroCount(n)
  {
  }

  /** Padding only the unfinished block pads the message. */
  lemma TailOfPad(m: seq<byte>, n: nat)
    requires 64 * n <= |m|
    ensures m[..64 * n] + (m[64 * n..] + [0x80] + Zeros(ZeroCount(|m| - 64 * n)) + LengthField(|m|)) == Pad(m)
  {
    hide ZeroCount, LengthField;
    ZeroCountPeriod(|m| - 64 * n, n);
    assert m == m[..64 * n] + m[64 * n..];
  }

  lemma RestOfBlocks(m: seq<byte>, n: nat)
    requires 64 * n + 64 <= |m|
    ensures m[64 * n..][..64] == m[64 * n..64 * n + 64] && m[64 * n..][64..] == m[64 * (n + 1)..]
  {
  }

  method Sha1Bytes(s: seq<byte>) returns (out: seq<byte>)
    ensures out == Digest(s)
  {
    var sh := new Sha1();
    sh.Update(s);
    assert sh.absorbed == s;
    out := sh.Finalize();
  }

  /** One hash object fed any list of chunks: how the message is cut makes no difference. */
  method DigestOfChunks(chunks: seq<seq<byte>>) returns (out: seq<byte>)
    ensures out == Digest(Flat(chunks))
  {
    hide Digest, Sha1.Valid;
    var sh := new Sha1();
    for i := 0 to |chunks|
      invariant fresh(sh) && sh.Valid() && sh.absorbed == Flat(chunks[..i])
    {
      sh.Update(chunks[i]);
      FlatOfPrefix(chunks, i);
    }
    assert chunks[..|chunks|] == chunks;
    out := sh.Finalize();
  }
}
