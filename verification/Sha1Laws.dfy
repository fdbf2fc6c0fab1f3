/**
 SHA-1 by the book: FIPS 180-4 as relations between octets, words and single bits, and the proof that
 the digest of this model is the one value they allow.
 */
module Sha1Laws {
  import Bits
  import opened Bytes
  import opened Fips180

  // ----- the book

  /** Section 3.2.5: `y` is `x` turned left by `n` places. */
  ghost predicate Turned(y: Word, x: Word, n: nat)
  {
    forall i: nat :: i < 32 ==> Bits.Bit(y, (i + n) % 32) == Bits.Bit(x, i)
  }

  /** Section 4.1.1, bit by bit: choose, parity, majority, parity. */
  function Vote(t: nat, x: nat, y: nat, z: nat): nat
  {
    if t < 20 then if x == 1 then y else z
    else if 40 <= t < 60 then if x + y + z >= 2 then 1 else 0
    else (x + y + z) % 2
  }

  ghost predicate Voted(f: Word, t: nat, x: Word, y: Word, z: Word)
  {
    forall i: nat :: i < 32 ==> Bits.Bit(f, i) == Vote(t, Bits.Bit(x, i), Bits.Bit(y, i), Bits.Bit(z, i))
  }

  /** Section 4.2.1: the constants are 2 to the 30 times the square roots of 2, 3, 5 and 10, cut off. */
  predicate RootOf(k: Word, t: nat)
  {
    var c := if t < 20 then 2 else if t < 40 then 3 else if t < 60 then 5 else 10;
    k * k <= c * 0x1000_0000_0000_0000 < (k + 1) * (k + 1)
  }

  /** Section 6.1.2, step 3: the sum T. */
  ghost predicate Summed(sum: Word, a: Word, f: Word, k: Word, t: nat, v: Hash, w: Word)
  {
    && Turned(a, v.h0, 5) && Voted(f, t, v.h1, v.h2, v.h3) && RootOf(k, t)
    && sum == (a + f + v.h4 + k + w) % 0x1_0000_0000
  }

  ghost predicate Stepped(t: nat, v: Hash, w: Word, v': Hash)
  {
    && v'.h1 == v.h0 && Turned(v'.h2, v.h1, 30) && v'.h3 == v.h2 && v'.h4 == v.h3
    && exists a: Word, f: Word, k: Word :: Summed(v'.h0, a, f, k, t, v, w)
  }

  /** Section 6.1.2, step 1: the parity of four earlier words, turned by one. */
  ghost predicate Mixed(y: Word, a: Word, b: Word, c: Word, d: Word)
  {
    forall i: nat :: i < 32 ==>
      Bits.Bit(y, (i + 1) % 32) == (Bits.Bit(a, i) + Bits.Bit(b, i) + Bits.Bit(c, i) + Bits.Bit(d, i)) % 2
  }

  /** Four octets from `4 * j` on as a number. */
  function WordIn(d: seq<byte>, j: nat): nat
    requires 4 * j + 4 <= |d|
  {
    0x100_0000 * (d[4 * j] as int) + 0x1_0000 * (d[4 * j + 1] as int) + 0x100 * (d[4 * j + 2] as int)
    + d[4 * j + 3] as int
  }

  ghost predicate Scheduled(block: seq<byte>, ws: seq<Word>)
    requires |block| == 64
  {
    && |ws| == 80
    && (forall t :: 0 <= t < 16 ==> ws[t] == WordIn(block, t))
    && (forall t :: 16 <= t < 80 ==> Mixed(ws[t], ws[t - 3], ws[t - 8], ws[t - 14], ws[t - 16]))
  }

  /** Section 6.1.2, steps 2 to 4, with the words and the working variables of one block. */
  ghost predicate Ran(h: Hash, block: seq<byte>, h': Hash, ws: seq<Word>, vs: seq<Hash>)
    requires |block| == 64
  {
    && |ws| == 80 && Scheduled(block, ws) && |vs| == 81 && vs[0] == h
    && (forall t: nat :: t < 80 ==> Stepped(t, vs[t], ws[t], vs[t + 1]))
    && h' == Hash((vs[80].h0 + h.h0) % 0x1_0000_0000, (vs[80].h1 + h.h1) % 0x1_0000_0000,
                  (vs[80].h2 + h.h2) % 0x1_0000_0000, (vs[80].h3 + h.h3) % 0x1_0000_0000,
                  (vs[80].h4 + h.h4) % 0x1_0000_0000)
  }

  ghost predicate Compressed(h: Hash, block: seq<byte>, h': Hash)
    requires |block| == 64
  {
    exists ws: seq<Word>, vs: seq<Hash> :: Ran(h, block, h', ws, vs)
  }

  // ----- one word

  lemma {:induction false} ShlBit(n: nat, x: Word, i: nat)
    requires i < 32
    ensures Bits.Bit(Shl(n, x), i) == if i < n then 0 else Bits.Bit(x, i - n)
    decreases n
  {
    if n > 0 {
      ShlBit(n - 1, 2 * x % 0x1_0000_0000, i);
      if i >= n - 1 { DoubleBit(x, i - (n - 1)); }
    }
  }

  lemma DoubleBit(x: Word, i: nat)
    requires i < 32
    ensures Bits.Bit(2 * x % 0x1_0000_0000, i) == if i == 0 then 0 else Bits.Bit(x, i - 1)
  {
    WordRange();
    if 2 * x >= 0x1_0000_0000 { Bits.LowBits(2 * x, 32, i); }
  }

  lemma {:induction false} ShrBit(n: nat, x: Word, i: nat)
    ensures Bits.Bit(Shr(n, x), i) == Bits.Bit(x, i + n)
    decreases n
  {
    if n > 0 { ShrBit(n - 1, x / 2, i); }
  }

  lemma RotlTurns(x: Word, n: nat)
    requires n <= 32
    ensures Turned(Rotl(x, n), x, n)
  {
    hide Shl, Shr, Bits.Or, Bits.Bit;
    WordRange();
    forall i: nat | i < 32 ensures Bits.Bit(Rotl(x, n), (i + n) % 32) == Bits.Bit(x, i) {
      var j := (i + n) % 32;
      Bits.OrBit(Shl(n, x), Shr(32 - n, x), 32, j);
      ShlBit(n, x, j);
      ShrBit(32 - n, x, j);
      if j >= n { Bits.HighBits(x, 32, j + 32 - n); }
    }
  }

  lemma TurnedOnce(y: Word, y': Word, x: Word, n: nat)
    requires Turned(y, x, n) && Turned(y', x, n) && n <= 32
    ensures y == y'
  {
    hide Bits.Bit;
    WordRange();
    forall j: nat | j < 32 ensures Bits.Bit(y, j) == Bits.Bit(y', j) {
      var i: nat := (j + 32 - n) % 32;
      assert (i + n) % 32 == j;
      assert Bits.Bit(y, (i + n) % 32) == Bits.Bit(x, i) == Bits.Bit(y', (i + n) % 32);
    }
    Bits.SameBits(y, y', 32);
  }

  lemma RoundFunctionVotes(t: nat, x: Word, y: Word, z: Word)
    ensures Voted(RoundFunction(t, x, y, z), t, x, y, z)
  {
    hide Bits.Bit, Bits.And, Bits.Or, Bits.Xor, Bits.Not;
    WordRange();
    forall i: nat | i < 32
      ensures Bits.Bit(RoundFunction(t, x, y, z), i) == Vote(t, Bits.Bit(x, i), Bits.Bit(y, i), Bits.Bit(z, i))
    {
      if t < 20 {
        ChooseBit(x, y, z, i);
      } else if 40 <= t < 60 {
        MajorityBit(x, y, z, i);
      } else {
        Bits.XorBit(x, y, 32, i);
        Bits.XorBit(Xor(x, y), z, 32, i);
      }
    }
  }

  lemma ChooseBit(x: Word, y: Word, z: Word, i: nat)
    requires i < 32
    ensures Bits.Bit(Ch(x, y, z), i) == if Bits.Bit(x, i) == 1 then Bits.Bit(y, i) else Bits.Bit(z, i)
  {
    hide Bits.Bit, Bits.And, Bits.Xor, Bits.Not;
    Bits.AndBit(x, y, 32, i);
    Bits.NotBit(x, 32, i);
    Bits.AndBit(Not(x), z, 32, i);
    Bits.XorBit(And(x, y), And(Not(x), z), 32, i);
  }

  lemma MajorityBit(x: Word, y: Word, z: Word, i: nat)
    requires i < 32
    ensures Bits.Bit(Maj(x, y, z), i) == if Bits.Bit(x, i) + Bits.Bit(y, i) + Bits.Bit(z, i) >= 2 then 1 else 0
  {
    hide Bits.Bit, Bits.And, Bits.Xor;
    Bits.AndBit(x, y, 32, i);
    Bits.AndBit(x, z, 32, i);
    Bits.AndBit(y, z, 32, i);
    Bits.XorBit(And(x, y), And(x, z), 32, i);
    Bits.XorBit(Xor(And(x, y), And(x, z)), And(y, z), 32, i);
  }

  lemma VotedOnce(f: Word, f': Word, t: nat, x: Word, y: Word, z: Word)
    requires Voted(f, t, x, y, z) && Voted(f', t, x, y, z)
    ensures f == f'
  {
    hide Bits.Bit, Vote;
    WordRange();
    Bits.SameBits(f, f', 32);
  }

  lemma ConstantsAreRoots(t: nat)
    ensures RootOf(RoundConstant(t), t)
  {
  }

  lemma RootOnce(k: Word, k': Word, t: nat)
    requires RootOf(k, t) && RootOf(k', t)
    ensures k == k'
  {
    if k < k' { SquareGrows(k + 1, k'); }
    if k' < k { SquareGrows(k' + 1, k); }
  }

  lemma SquareGrows(a: nat, b: nat)
    requires a <= b
    ensures a * a <= b * b
  {
  }

  lemma RoundSums(t: nat, v: Hash, w: Word, sum: Word)
    ensures (exists a: Word, f: Word, k: Word :: Summed(sum, a, f, k, t, v, w)) <==> sum == Round(v, t, w).h0
  {
    hide Turned, Voted, RootOf, Rotl, RoundFunction, RoundConstant;
    var a, f, k := Rotl(v.h0, 5), RoundFunction(t, v.h1, v.h2, v.h3), RoundConstant(t);
    RotlTurns(v.h0, 5);
    RoundFunctionVotes(t, v.h1, v.h2, v.h3);
    ConstantsAreRoots(t);
    if sum == Round(v, t, w).h0 { assert Summed(sum, a, f, k, t, v, w); }
    if a': Word, f': Word, k': Word :| Summed(sum, a', f', k', t, v, w) {
      TurnedOnce(a, a', v.h0, 5);
      VotedOnce(f, f', t, v.h1, v.h2, v.h3);
      RootOnce(k, k', t);
    }
  }

  /** One round is the step of the book, and the only one. */
  lemma RoundIsStep(t: nat, v: Hash, w: Word, v': Hash)
    ensures Stepped(t, v, w, v') <==> v' == Round(v, t, w)
  {
    hide Turned, Summed, Rotl, RoundFunction, RoundConstant;
    RoundSums(t, v, w, v'.h0);
    RotlTurns(v.h1, 30);
    if Turned(v'.h2, v.h1, 30) { TurnedOnce(v'.h2, Rotl(v.h1, 30), v.h1, 30); }
  }

  // ----- one block

  lemma ScheduleIsMixed(ws: seq<Word>, block: seq<byte>, t: nat)
    requires |block| == 64 && 16 <= t < |ws| && forall j: nat :: j < t ==> ws[j] == Schedule(block, j)
    ensures Mixed(ws[t], ws[t - 3], ws[t - 8], ws[t - 14], ws[t - 16]) <==> ws[t] == Schedule(block, t)
  {
    hide Bits.Bit, Bits.Xor, Rotl, WordAt;
    WordRange();
    var a, b, c, d := ws[t - 3], ws[t - 8], ws[t - 14], ws[t - 16];
    var x := Xor(Xor(Xor(a, b), c), d);
    MixIsTurn(ws[t], a, b, c, d);
    RotlTurns(x, 1);
    if Turned(ws[t], x, 1) { TurnedOnce(ws[t], Rotl(x, 1), x, 1); }
  }

  lemma MixIsTurn(y: Word, a: Word, b: Word, c: Word, d: Word)
    ensures Mixed(y, a, b, c, d) <==> Turned(y, Xor(Xor(Xor(a, b), c), d), 1)
  {
    hide Bits.Bit, Xor;
    var x := Xor(Xor(Xor(a, b), c), d);
    forall i: nat | i < 32
      ensures Bits.Bit(x, i) == (Bits.Bit(a, i) + Bits.Bit(b, i) + Bits.Bit(c, i) + Bits.Bit(d, i)) % 2
    {
      XorOfFourBit(a, b, c, d, i);
    }
  }

  lemma XorOfFourBit(a: Word, b: Word, c: Word, d: Word, i: nat)
    requires i < 32
    ensures Bits.Bit(Xor(Xor(Xor(a, b), c), d), i)
         == (Bits.Bit(a, i) + Bits.Bit(b, i) + Bits.Bit(c, i) + Bits.Bit(d, i)) % 2
  {
    hide Bits.Bit, Bits.Xor;
    WordRange();
    Bits.XorBit(a, b, 32, i);
    Bits.XorBit(Xor(a, b), c, 32, i);
    Bits.XorBit(Xor(Xor(a, b), c), d, 32, i);
  }

  lemma WordOfBlock(block: seq<byte>, t: nat)
    requires |block| == 64 && t < 16
    ensures Schedule(block, t) == WordIn(block, t)
  {
    hide FromBe;
    FourOctets(block[4 * t..4 * t + 4]);
  }

  lemma ScheduledWord(block: seq<byte>, ws: seq<Word>, t: nat)
    requires |block| == 64 && Scheduled(block, ws) && t < 80
    requires forall j: nat :: j < t ==> ws[j] == Schedule(block, j)
    ensures ws[t] == Schedule(block, t)
  {
    hide Mixed, Schedule;
    if t < 16 {
      WordOfBlock(block, t);
    } else {
      assert Mixed(ws[t], ws[t - 3], ws[t - 8], ws[t - 14], ws[t - 16]);
      ScheduleIsMixed(ws, block, t);
    }
  }

  /** The first `n` words of a scheduled list are the schedule. */
  lemma {:induction false} ScheduledWords(block: seq<byte>, ws: seq<Word>, n: nat)
    requires |block| == 64 && |ws| == 80 && Scheduled(block, ws) && n <= 80
    ensures forall j: nat :: j < n ==> ws[j] == Schedule(block, j)
  {
    hide Scheduled, Schedule;
    if n > 0 {
      ScheduledWords(block, ws, n - 1);
      ScheduledWord(block, ws, n - 1);
    }
  }

  lemma ScheduleIsScheduled(block: seq<byte>) returns (ws: seq<Word>)
    requires |block| == 64
    ensures Scheduled(block, ws) && forall j: nat :: j < 80 ==> ws[j] == Schedule(block, j)
  {
    hide Mixed, Schedule;
    ws := seq(80, j requires 0 <= j < 80 => Schedule(block, j));
    forall t: nat | t < 16 { WordOfBlock(block, t); }
    forall t: nat | 16 <= t < 80 { ScheduleIsMixed(ws, block, t); }
  }

  lemma {:induction false} SteppedRounds(h: Hash, block: seq<byte>, ws: seq<Word>, vs: seq<Hash>, n: nat)
    requires |block| == 64 && |ws| == 80 && |vs| == 81 && vs[0] == h && n <= 80
    requires forall t: nat :: t < 80 ==> ws[t] == Schedule(block, t)
    requires forall t: nat :: t < 80 ==> Stepped(t, vs[t], ws[t], vs[t + 1])
    ensures vs[n] == Rounds(h, block, n)
  {
    hide Stepped, Schedule, Round;
    if n > 0 {
      SteppedRounds(h, block, ws, vs, n - 1);
      assert Stepped(n - 1, vs[n - 1], ws[n - 1], vs[n - 1 + 1]);
      RoundIsStep(n - 1, vs[n - 1], ws[n - 1], vs[n]);
    }
  }

  lemma RoundsAreSteps(h: Hash, block: seq<byte>, ws: seq<Word>) returns (vs: seq<Hash>)
    requires |block| == 64 && |ws| == 80 && forall t: nat :: t < 80 ==> ws[t] == Schedule(block, t)
    ensures |vs| == 81 && vs[0] == h && vs[80] == Rounds(h, block, 80)
    ensures forall t: nat :: t < 80 ==> Stepped(t, vs[t], ws[t], vs[t + 1])
  {
    hide Stepped, Schedule, Round;
    vs := seq(81, j requires 0 <= j < 81 => Rounds(h, block, j));
    forall t: nat | t < 80 ensures Stepped(t, vs[t], ws[t], vs[t + 1]) {
      RoundIsStep(t, vs[t], ws[t], vs[t + 1]);
    }
  }

  lemma RanIsCompress(h: Hash, block: seq<byte>, h': Hash, ws: seq<Word>, vs: seq<Hash>)
    requires |block| == 64 && Ran(h, block, h', ws, vs)
    ensures h' == Compress(h, block)
  {
    hide Scheduled, Stepped, Schedule, Rounds;
    ScheduledWords(block, ws, 80);
    SteppedRounds(h, block, ws, vs, 80);
  }

  lemma CompressRan(h: Hash, block: seq<byte>) returns (ws: seq<Word>, vs: seq<Hash>)
    requires |block| == 64
    ensures Ran(h, block, Compress(h, block), ws, vs)
  {
    hide Scheduled, Stepped, Schedule, Rounds;
    ws := ScheduleIsScheduled(block);
    ScheduledLength(block, ws);
    vs := RoundsAreSteps(h, block, ws);
  }

  lemma ScheduledLength(block: seq<byte>, ws: seq<Word>)
    requires |block| == 64 && Scheduled(block, ws)
    ensures |ws| == 80
  {
  }

  /** The compression of this model is the one the book allows. */
  lemma CompressIsBook(h: Hash, block: seq<byte>, h': Hash)
    requires |block| == 64
    ensures Compressed(h, block, h') <==> h' == Compress(h, block)
  {
    hide Ran, Compress;
    if ws: seq<Word>, vs: seq<Hash> :| Ran(h, block, h', ws, vs) {
      RanIsCompress(h, block, h', ws, vs);
    }
    var ws, vs := CompressRan(h, block);
  }

  // ----- the whole message

  /** Section 5.1.1: a one bit, as few zeros as will do, and the bit length in eight octets. */
  ghost predicate Padded(m: seq<byte>, p: seq<byte>)
  {
    && |p| % 64 == 0 && |m| + 9 <= |p| < |m| + 73
    && m <= p && p[|m|] == 0x80 && (forall i :: |m| < i < |p| - 8 ==> p[i] == 0)
    && Numeral(p[|p| - 8..]) == 8 * |m| % 0x1_0000_0000_0000_0000
  }

  lemma NumeralOnce(s: seq<byte>, s': seq<byte>)
    requires |s| == 8 && |s'| == 8 && Numeral(s) == Numeral(s')
    ensures s == s'
  {
    hide FromBe, ToBe;
    EightOctets(s);
    EightOctets(s');
    ToFromBe(s);
    ToFromBe(s');
  }

  lemma PadIsPadded(m: seq<byte>)
    ensures Padded(m, Pad(m))
  {
    hide FromBe, ToBe, ZeroCount;
    var p, z := Pad(m), ZeroCount(|m|);
    assert p[|p| - 8..] == LengthField(|m|);
    EightOctets(p[|p| - 8..]);
    Pow256Values();
    FromToBe(BitLength(|m|), 8);
  }

  lemma PaddedOnce(m: seq<byte>, p: seq<byte>, p': seq<byte>)
    requires Padded(m, p) && Padded(m, p')
    ensures p == p'
  {
    hide Numeral;
    assert |p| == |p'|;
    NumeralOnce(p[|p| - 8..], p'[|p| - 8..]);
    var k := |p| - 8;
    forall i | 0 <= i < |p| ensures p[i] == p'[i] {
      if i < |m| {
        assert p[i] == m[i] == p'[i];
      } else if i >= k {
        assert p[k..][i - k] == p'[k..][i - k];
      }
    }
  }

  /** Section 6.1: the initial value of section 5.3.1, then block after block. */
  ghost predicate Chained(p: seq<byte>, hs: seq<Hash>)
    requires |p| % 64 == 0
  {
    && |hs| == |p| / 64 + 1 && hs[0] == Hash(0x67452301, 0xEFCDAB89, 0x98BADCFE, 0x10325476, 0xC3D2E1F0)
    && forall k: nat :: k < |p| / 64 ==> Compressed(hs[k], p[64 * k..64 * k + 64], hs[k + 1])
  }

  /** The digest is the last hash value, word after word. */
  ghost predicate Hashed(m: seq<byte>, d: seq<byte>, p: seq<byte>, hs: seq<Hash>)
  {
    && Padded(m, p) && |p| % 64 == 0 && Chained(p, hs) && |hs| > 0 && |d| == 20
    && var h := hs[|hs| - 1];
      WordIn(d, 0) == h.h0 && WordIn(d, 1) == h.h1 && WordIn(d, 2) == h.h2 && WordIn(d, 3) == h.h3
      && WordIn(d, 4) == h.h4
  }

  lemma {:induction false} ChainedBlocks(p: seq<byte>, hs: seq<Hash>, n: nat)
    requires |p| % 64 == 0 && Chained(p, hs) && n <= |p| / 64
    ensures hs[n] == Blocks(INITIAL, p, n)
  {
    hide Compressed, Compress;
    if n > 0 {
      ChainedBlocks(p, hs, n - 1);
      assert Compressed(hs[n - 1], p[64 * (n - 1)..64 * (n - 1) + 64], hs[n - 1 + 1]);
      CompressIsBook(hs[n - 1], p[64 * (n - 1)..64 * n], hs[n]);
    }
  }

  lemma BlocksAreChained(p: seq<byte>) returns (hs: seq<Hash>)
    requires |p| % 64 == 0
    ensures Chained(p, hs) && |hs| == |p| / 64 + 1 && hs[|p| / 64] == Blocks(INITIAL, p, |p| / 64)
  {
    hide Compressed, Compress;
    var n := |p| / 64;
    hs := seq(n + 1, j requires 0 <= j < n + 1 => Blocks(INITIAL, p, j));
    forall k: nat | k < n ensures Compressed(hs[k], p[64 * k..64 * k + 64], hs[k + 1]) {
      NextBlock(INITIAL, p, k);
      CompressIsBook(hs[k], p[64 * k..64 * k + 64], hs[k + 1]);
    }
  }

  lemma WordsOfDigest(d: seq<byte>, h: Hash)
    requires |d| == 20
    ensures WordIn(d, 0) == h.h0 && WordIn(d, 1) == h.h1 && WordIn(d, 2) == h.h2 && WordIn(d, 3) == h.h3
            && WordIn(d, 4) == h.h4
       <==> d == ToBe(h.h0, 4) + ToBe(h.h1, 4) + ToBe(h.h2, 4) + ToBe(h.h3, 4) + ToBe(h.h4, 4)
  {
    hide FromBe, ToBe, Pow256;
    forall j: nat | j < 5 ensures WordIn(d, j) == FromBe(d[4 * j..4 * j + 4]) {
      FourOctets(d[4 * j..4 * j + 4]);
    }
    WordOctets(d[0..4], h.h0);
    WordOctets(d[4..8], h.h1);
    WordOctets(d[8..12], h.h2);
    WordOctets(d[12..16], h.h3);
    WordOctets(d[16..20], h.h4);
    assert d == d[0..4] + d[4..8] + d[8..12] + d[12..16] + d[16..20];
  }

  lemma WordOctets(s: seq<byte>, w: Word)
    requires |s| == 4
    ensures FromBe(s) == w <==> s == ToBe(w, 4)
  {
    hide FromBe, ToBe;
    assert Pow256(4) == 0x1_0000_0000;
    FromToBe(w, 4);
    ToFromBe(s);
  }

  /** The digest of this model is the one value FIPS 180-4 allows for a message, whatever the message. */
  lemma DigestIsBook(m: seq<byte>, d: seq<byte>)
    ensures (exists p: seq<byte>, hs: seq<Hash> :: Hashed(m, d, p, hs)) <==> d == Digest(m)
  {
    hide Padded, Chained, Pad, WordIn, ToBe, Blocks;
    PadIsPadded(m);
    if p: seq<byte>, hs: seq<Hash> :| Hashed(m, d, p, hs) {
      PaddedOnce(m, p, Pad(m));
      ChainLength(p, hs);
      ChainedBlocks(p, hs, |p| / 64);
      WordsOfDigest(d, hs[|hs| - 1]);
    }
    if d == Digest(m) {
      var hs := BlocksAreChained(Pad(m));
      WordsOfDigest(d, hs[|hs| - 1]);
      assert Hashed(m, d, Pad(m), hs);
    }
  }

  lemma ChainLength(p: seq<byte>, hs: seq<Hash>)
    requires |p| % 64 == 0 && Chained(p, hs)
    ensures |hs| == |p| / 64 + 1
  {
  }
}
