/** The encoder of include/webserver/base64.hpp and the decoder of section 4 of RFC 4648. */
module Base64 {
  import opened Bytes

  const ALPHABET: string := "ABCDEFGHIJKLMNOPQRSTUVWXYZ" + "abcdefghijklmnopqrstuvwxyz" + "0123456789+/"

  /** Table 1 of RFC 4648: the character for a six-bit value. */
  function Symbol(v: nat): char
    requires v < 64
  {
    if v < 26 then 'A' + v as char
    else if v < 52 then 'a' + (v - 26) as char
    else if v < 62 then '0' + (v - 52) as char
    else if v == 62 then '+' else '/'
  }

  /** The alphabet at the low six bits of `v`. */
  function Pick(v: int): char
  {
    ALPHABET[v % 64]
  }

  lemma AlphabetIsTable(v: nat)
    requires v < 64
    ensures ALPHABET[v] == Symbol(v)
  {
  }

  /** Table 1 read backwards. */
  function Value(c: char): (v: Option<nat>)
    ensures v.Some? ==> v.value < 64 && Symbol(v.value) == c
  {
    if 'A' <= c <= 'Z' then Some(c as int - 'A' as int)
    else if 'a' <= c <= 'z' then Some(c as int - 'a' as int + 26)
    else if '0' <= c <= '9' then Some(c as int - '0' as int + 52)
    else if c == '+' then Some(62)
    else if c == '/' then Some(63)
    else None
  }

  lemma ValueOfSymbol(v: nat)
    requires v < 64
    ensures Value(Symbol(v)) == Some(v)
    ensures Symbol(v) != '=' && Value('=') == None
  {
  }

  /** One to three octets as four characters: each character carries six bits, the rest is padding. */
  function Quantum(b: seq<byte>): (s: string)
    requires 1 <= |b| <= 3
    ensures |s| == 4
  {
    var b0: int := b[0];
    var b1: int := if |b| > 1 then b[1] else 0;
    var b2: int := if |b| > 2 then b[2] else 0;
    [Symbol(b0 / 4), Symbol(b0 % 4 * 16 + b1 / 16),
     if |b| > 1 then Symbol(b1 % 16 * 4 + b2 / 64) else '=',
     if |b| > 2 then Symbol(b2 % 64) else '=']
  }

  /** Encoding, three octets at a time. */
  function Encode(p: seq<byte>): string
  {
    if p == [] then ""
    else if |p| <= 3 then Quantum(p)
    else Quantum(p[..3]) + Encode(p[3..])
  }

  /** The octets of four characters; bits that no octet takes must be zero. */
  function DecodeQuantum(s: string): Option<seq<byte>>
    requires |s| == 4
  {
    match (Value(s[0]), Value(s[1]), Value(s[2]), Value(s[3]))
    case (Some(v0), Some(v1), Some(v2), Some(v3)) =>
      Some([v0 * 4 + v1 / 16, v1 % 16 * 16 + v2 / 4, v2 % 4 * 64 + v3])
    case (Some(v0), Some(v1), Some(v2), None) =>
      if s[3] == '=' && v2 % 4 == 0 then Some([v0 * 4 + v1 / 16, v1 % 16 * 16 + v2 / 4]) else None
    case (Some(v0), Some(v1), None, None) =>
      if s[2] == '=' && s[3] == '=' && v1 % 16 == 0 then Some([v0 * 4 + v1 / 16]) else None
    case _ => None
  }

  /** Section 4 of RFC 4648 read backwards; padding is accepted in the last four characters only. */
  function Decode(s: string): Option<seq<byte>>
  {
    if s == "" then Some([])
    else if |s| < 4 then None
    else
      match DecodeQuantum(s[..4])
      case None => None
      case Some(b) =>
        if |s| == 4 then Some(b)
        else if |b| < 3 then None
        else
          match Decode(s[4..])
          case None => None
          case Some(rest) => Some(b + rest)
  }

  /** The encoder: whole groups of three, then one of the two tails. */
  method Base64Encode(p: seq<byte>) returns (out: string)
    ensures out == Encode(p)
  {
    hide Symbol, Join, Encode, Pick;
    out := "";
    var n := |p|;
    var i := 0;
    while i + 3 <= n
      invariant 0 <= i <= n
      invariant out + Encode(p[i..]) == Encode(p)
    {
      var v := Join(p[i], p[i + 1], p[i + 2]);
      FourSymbols(p[i], p[i + 1], p[i + 2]);
      EncodeStep(p[i..]);
      assert p[i..][..3] == p[i..i + 3] && p[i..][3..] == p[i + 3..];
      i := i + 3;
      out := out + [Pick(v / 0x4_0000), Pick(v / 0x1000), Pick(v / 0x40), Pick(v)];
    }
    if i + 1 == n {
      var v := Join(p[i], 0, 0);
      FourSymbols(p[i], 0, 0);
      EncodeTail(p[i..]);
      out := out + [Pick(v / 0x4_0000), Pick(v / 0x1000), '=', '='];
    } else if i + 2 == n {
      var v := Join(p[i], p[i + 1], 0);
      FourSymbols(p[i], p[i + 1], 0);
      EncodeTail(p[i..]);
      out := out + [Pick(v / 0x4_0000), Pick(v / 0x1000), Pick(v / 0x40), '='];
    } else {
      EncodeTail(p[i..]);
    }
  }

  /** Three octets shifted into one 24-bit value. */
  function Join(b0: int, b1: int, b2: int): int
  {
    b0 * 0x1_0000 + b1 * 0x100 + b2
  }

  /** Shifting and masking the 24-bit value picks these bits of the octets. */
  lemma SixBitGroups(b0: int, b1: int, b2: int)
    requires 0 <= b0 < 256 && 0 <= b1 < 256 && 0 <= b2 < 256
    ensures var v := Join(b0, b1, b2);
      && v / 0x4_0000 % 64 == b0 / 4
      && v / 0x1000 % 64 == b0 % 4 * 16 + b1 / 16
      && v / 0x40 % 64 == b1 % 16 * 4 + b2 / 64
      && v % 64 == b2 % 64
  {
    SixBitParts(b0 / 4, b0 % 4, b1 / 16, b1 % 16, b2 / 64, b2 % 64);
  }

  lemma SixBitParts(a: int, x: int, c: int, y: int, d: int, z: int)
    requires 0 <= a < 64 && 0 <= x < 4 && 0 <= c < 16 && 0 <= y < 16 && 0 <= d < 4 && 0 <= z < 64
    ensures var v := Join(4 * a + x, 16 * c + y, 64 * d + z);
      v / 0x4_0000 % 64 == a && v / 0x1000 % 64 == x * 16 + c && v / 0x40 % 64 == y * 4 + d && v % 64 == z
  {
    Shift18(a, 0x1_0000 * x + 0x1000 * c + 0x100 * y + 0x40 * d + z);
    Shift12(64 * a + 16 * x + c, 0x100 * y + 0x40 * d + z);
    Shift6(0x1000 * a + 0x400 * x + 0x40 * c + 4 * y + d, z);
    Shift6(a, 16 * x + c);
    Shift6(64 * a + 16 * x + c, 4 * y + d);
  }

  lemma Shift18(q: int, r: int)
    requires 0 <= r < 0x4_0000
    ensures (0x4_0000 * q + r) / 0x4_0000 == q
  {
  }

  lemma Shift12(q: int, r: int)
    requires 0 <= r < 0x1000
    ensures (0x1000 * q + r) / 0x1000 == q
  {
  }

  lemma Shift6(q: int, r: int)
    requires 0 <= r < 0x40
    ensures (0x40 * q + r) / 0x40 == q && (0x40 * q + r) % 0x40 == r
  {
  }

  /** Putting the six-bit groups together again gives the octets. */
  lemma GroupsToOctets(b0: int, b1: int, b2: int)
    requires 0 <= b0 < 256 && 0 <= b1 < 256 && 0 <= b2 < 256
    ensures var v0, v1, v2, v3 := b0 / 4, b0 % 4 * 16 + b1 / 16, b1 % 16 * 4 + b2 / 64, b2 % 64;
      && v0 * 4 + v1 / 16 == b0 && v1 % 16 * 16 + v2 / 4 == b1 && v2 % 4 * 64 + v3 == b2
      && (b1 == 0 ==> v1 % 16 == 0) && (b2 == 0 ==> v2 % 4 == 0)
  {
  }

  lemma OctetsToGroups(v0: nat, v1: nat, v2: nat, v3: nat)
    requires v0 < 64 && v1 < 64 && v2 < 64 && v3 < 64
    ensures var b0, b1, b2 := v0 * 4 + v1 / 16, v1 % 16 * 16 + v2 / 4, v2 % 4 * 64 + v3;
      && b0 / 4 == v0 && b0 % 4 * 16 + b1 / 16 == v1 && b1 % 16 * 4 + b2 / 64 == v2 && b2 % 64 == v3
  {
  }

  lemma FourSymbols(b0: int, b1: int, b2: int)
    requires 0 <= b0 < 256 && 0 <= b1 < 256 && 0 <= b2 < 256
    ensures var v := Join(b0, b1, b2);
      [Pick(v / 0x4_0000), Pick(v / 0x1000), Pick(v / 0x40), Pick(v)]
      == [Symbol(b0 / 4), Symbol(b0 % 4 * 16 + b1 / 16), Symbol(b1 % 16 * 4 + b2 / 64), Symbol(b2 % 64)]
  {
    hide Symbol;
    var v := Join(b0, b1, b2);
    SixBitGroups(b0, b1, b2);
    AlphabetIsTable(v / 0x4_0000 % 64);
    AlphabetIsTable(v / 0x1000 % 64);
    AlphabetIsTable(v / 0x40 % 64);
    AlphabetIsTable(v % 64);
  }

  lemma EncodeStep(p: seq<byte>)
    requires |p| >= 3
    ensures Encode(p) == Quantum(p[..3]) + Encode(p[3..])
  {
    hide Quantum;
    if |p| == 3 { assert p[..3] == p; }
  }

  lemma EncodeTail(p: seq<byte>)
    requires |p| < 3
    ensures Encode(p) == if p == [] then "" else Quantum(p)
  {
  }

  // ----- the encoder against the decoder

  lemma SymbolsOfGroups(b0: byte, b1: byte, b2: byte)
    ensures var v0, v1, v2, v3 := (b0 as int) / 4, (b0 as int) % 4 * 16 + (b1 as int) / 16,
                                  (b1 as int) % 16 * 4 + (b2 as int) / 64, (b2 as int) % 64;
      && Value(Symbol(v0)) == Some(v0) && Value(Symbol(v1)) == Some(v1)
      && Value(Symbol(v2)) == Some(v2) && Value(Symbol(v3)) == Some(v3) && Value('=') == None
  {
    hide Symbol, Value;
    ValueOfSymbol((b0 as int) / 4);
    ValueOfSymbol((b0 as int) % 4 * 16 + (b1 as int) / 16);
    ValueOfSymbol((b1 as int) % 16 * 4 + (b2 as int) / 64);
    ValueOfSymbol((b2 as int) % 64);
  }

  lemma QuantumRoundTrip(b: seq<byte>)
    requires 1 <= |b| <= 3
    ensures DecodeQuantum(Quantum(b)) == Some(b)
  {
    hide Symbol, Value;
    var b0 := b[0];
    var b1 := if |b| > 1 then b[1] else 0;
    var b2 := if |b| > 2 then b[2] else 0;
    GroupsToOctets(b0, b1, b2);
    SymbolsOfGroups(b0, b1, b2);
    assert b == if |b| == 1 then [b0] else if |b| == 2 then [b0, b1] else [b0, b1, b2];
  }

  lemma QuantumOnly(s: string)
    requires |s| == 4 && DecodeQuantum(s).Some?
    ensures var b := DecodeQuantum(s).value; 1 <= |b| <= 3 && Quantum(b) == s
  {
    hide Symbol, Value;
    var v0, v1 := Value(s[0]).value, Value(s[1]).value;
    var v2 := if Value(s[2]).Some? then Value(s[2]).value else 0;
    var v3 := if Value(s[3]).Some? then Value(s[3]).value else 0;
    OctetsToGroups(v0, v1, v2, v3);
  }

  lemma {:induction false} DecodeEncoded(p: seq<byte>)
    ensures Decode(Encode(p)) == Some(p)
  {
    hide Quantum, DecodeQuantum, Value;
    if 1 <= |p| <= 3 {
      QuantumRoundTrip(p);
      assert Encode(p)[..4] == Encode(p);
    } else if |p| > 3 {
      QuantumRoundTrip(p[..3]);
      DecodeEncoded(p[3..]);
      assert Encode(p)[..4] == Quantum(p[..3]) && Encode(p)[4..] == Encode(p[3..]);
      assert p == p[..3] + p[3..];
    } else {
      assert p == [];
    }
  }

  /** Only encodings decode, so the encoder is a bijection onto the decodable strings. */
  lemma {:induction false} EncodeDecoded(s: string)
    requires Decode(s).Some?
    ensures Encode(Decode(s).value) == s
  {
    hide Quantum, DecodeQuantum;
    if s != "" {
      QuantumOnly(s[..4]);
      if |s| > 4 {
        EncodeDecoded(s[4..]);
        EncodeStep(Decode(s).value);
      }
    }
  }

  lemma QuantumShape(b: seq<byte>)
    requires 1 <= |b| <= 3
    ensures forall i :: 0 <= i < 4 ==> if i <= |b| then Value(Quantum(b)[i]).Some? else Quantum(b)[i] == '='
  {
    QuantumRoundTrip(b);
  }

  /** Length and padding: four characters per started group, '=' exactly in the last places. */
  lemma {:induction false} EncodedShape(p: seq<byte>)
    ensures |Encode(p)| == 4 * ((|p| + 2) / 3)
    ensures forall i :: 0 <= i < |Encode(p)| ==>
        if i < |Encode(p)| - (3 - |p| % 3) % 3 then Value(Encode(p)[i]).Some? else Encode(p)[i] == '='
  {
    hide Quantum, DecodeQuantum, Value;
    if 1 <= |p| <= 3 {
      QuantumShape(p);
    } else if |p| > 3 {
      var head, tail := Quantum(p[..3]), Encode(p[3..]);
      QuantumShape(p[..3]);
      EncodedShape(p[3..]);
      assert |p[3..]| % 3 == |p| % 3;
      assert forall i :: 4 <= i < |head + tail| ==> (head + tail)[i] == tail[i - 4];
    }
  }

  lemma {:induction false} EncodeConcat(a: seq<byte>, b: seq<byte>)
    requires |a| % 3 == 0
    ensures Encode(a + b) == Encode(a) + Encode(b)
  {
    hide Quantum;
    if a == [] {
      assert a + b == b;
    } else {
      assert (a + b)[..3] == a[..3] && (a + b)[3..] == a[3..] + b;
      EncodeStep(a + b);
      EncodeStep(a);
      EncodeConcat(a[3..], b);
    }
  }

  /** Octet `k` of `p`, zero beyond its end. */
  function OctetOr0(p: seq<byte>, k: nat): int
  {
    if k < |p| then p[k] else 0
  }

  /** The `i`-th group of six bits, most significant first. */
  function SixBits(p: seq<byte>, i: nat): (v: nat)
    ensures v < 64
  {
    var g := 3 * (i / 4);
    if i % 4 == 0 then OctetOr0(p, g) / 4
    else if i % 4 == 1 then OctetOr0(p, g) % 4 * 16 + OctetOr0(p, g + 1) / 16
    else if i % 4 == 2 then OctetOr0(p, g + 1) % 16 * 4 + OctetOr0(p, g + 2) / 64
    else OctetOr0(p, g + 2) % 64
  }

  lemma TableLetters(v: nat)
    requires v < 64
    ensures Symbol(v) == ("ABCDEFGHIJKLMNOPQRSTUVWXYZ" + "abcdefghijklmnopqrstuvwxyz" + "0123456789+/")[v]
  {
  }

  lemma SixBitsShift(p: seq<byte>, i: nat)
    requires |p| >= 3
    ensures SixBits(p, i + 4) == SixBits(p[3..], i)
  {
    assert (i + 4) / 4 == i / 4 + 1;
    var g := 3 * (i / 4);
    assert OctetOr0(p, g + 3) == OctetOr0(p[3..], g);
    assert OctetOr0(p, g + 4) == OctetOr0(p[3..], g + 1);
    assert OctetOr0(p, g + 5) == OctetOr0(p[3..], g + 2);
  }

  /** Every character of an encoding that is not padding is the letter of its own six bits. */
  lemma {:induction false} EncodedLetters(p: seq<byte>, i: nat)
    requires i < (4 * |p| + 2) / 3
    ensures i < |Encode(p)|
    ensures Encode(p)[i]
         == ("ABCDEFGHIJKLMNOPQRSTUVWXYZ" + "abcdefghijklmnopqrstuvwxyz" + "0123456789+/")[SixBits(p, i)]
  {
    hide Symbol;
    TableLetters(SixBits(p, i));
    if |p| > 3 && i >= 4 {
      EncodedLetters(p[3..], i - 4);
      SixBitsShift(p, i - 4);
    }
  }

  lemma EncodedHi()
    ensures Encode([0x68, 0x69]) == "aGk="
  {
  }
}
