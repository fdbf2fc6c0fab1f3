/**
 What the codec of src/frame.cpp promises. The partner of the parser is the wire format itself:
 a frame may be laid out with any reserved bits, any sufficient length form and an optional key,
 and the parser accepts exactly those layouts.
 */
module FrameLaws {
  import opened Bytes
  import opened Frames

  /** The three length forms of section 5.2 of RFC 6455. */
  datatype LengthForm = Short | Medium | Long

  /** The choices a sender has in putting one frame on the wire. */
  datatype Layout = Layout(rsv: nat, form: LengthForm, key: seq<byte>) {

    /** The layout can carry a payload of `n` bytes; the length form need not be the shortest. */
    ghost predicate Fits(n: nat) {
      && rsv < 8
      && (|key| == 0 || |key| == 4)
      && n < match form case Short => 126 case Medium => Pow256(2) case Long => Pow256(8)
    }

    ghost function ExtendedLength(n: nat): seq<byte> {
      match form case Short => [] case Medium => ToBe(n, 2) case Long => ToBe(n, 8)
    }

    ghost function SecondByte(n: nat): byte
      requires Fits(n)
    {
      (if key == [] then 0 else 0x80) + match form case Short => n case Medium => 126 case Long => 127
    }

    ghost function Head(fin: bool, opcode: byte, n: nat): (s: seq<byte>)
      requires Fits(n)
      ensures |s| == 2 + |ExtendedLength(n)| + |key|
    {
      [FirstByte(fin, rsv, opcode), SecondByte(n)] + ExtendedLength(n) + key
    }

    ghost function Render(f: Frame): seq<byte>
      requires Fits(|f.payload|)
    {
      Head(f.fin, f.opcode, |f.payload|) + Mask(f.payload, key)
    }
  }

  /** The layout the builder uses: no reserved bits, no key, shortest length form. */
  ghost function Minimal(n: nat): (l: Layout)
    ensures n < Pow256(8) ==> l.Fits(n)
  {
    Pow256Values();
    Layout(0, if n <= 125 then Short else if n <= 0xFFFF then Medium else Long, [])
  }

  lemma EncodeIsMinimal(f: Frame)
    requires |f.payload| < Pow256(8)
    ensures var l := Minimal(|f.payload|);
      Encode(f) == l.Render(f) == l.Head(f.fin, f.opcode, |f.payload|) + f.payload
  {
  }

  lemma MaskTwice(s: seq<byte>, key: seq<byte>)
    requires |key| == 0 || |key| == 4
    ensures Mask(Mask(s, key), key) == s
  {
    if key != [] {
      forall i | 0 <= i < |s| ensures Mask(Mask(s, key), key)[i] == s[i] {
        XorOctetTwice(s[i], key[i % 4]);
      }
    }
  }

  // ----- headers

  lemma FirstByteFields(fin: bool, rsv: nat, opcode: byte)
    requires rsv < 8 && opcode < 16
    ensures var b := FirstByte(fin, rsv, opcode); (b >= 0x80 <==> fin) && b % 0x10 == opcode && b / 0x10 % 8 == rsv
  {
  }

  lemma SecondByteFields(l: Layout, n: nat)
    requires l.Fits(n)
    ensures var b := l.SecondByte(n);
      && (b >= 0x80 <==> l.key != [])
      && ExtLen(b % 0x80) == |l.ExtendedLength(n)|
      && (if l.form.Short? then b % 0x80 else FromBe(l.ExtendedLength(n))) == n
      && (l.form.Short? <==> ExtLen(b % 0x80) == 0)
  {
    if l.form.Medium? { FromToBe(n, 2); }
    if l.form.Long? { FromToBe(n, 8); }
  }

  /** Whatever follows it, a laid-out head is read back field by field. */
  lemma DecodeHead(l: Layout, fin: bool, opcode: byte, n: nat, rest: seq<byte>)
    requires l.Fits(n) && opcode < 16
    ensures DecodeHeader(l.Head(fin, opcode, n) + rest)
         == Some(Header(fin, opcode, n, l.key, |l.Head(fin, opcode, n)|))
  {
    hide ToBe, FromBe, Pow256, FirstByte;
    var head := l.Head(fin, opcode, n);
    var ext := l.ExtendedLength(n);
    var data := head + rest;
    assert data[2..2 + |ext|] == ext;
    assert data[2 + |ext|..|head|] == l.key;
    assert data[0] == FirstByte(fin, l.rsv, opcode) && data[1] == l.SecondByte(n);
    FirstByteFields(fin, l.rsv, opcode);
    SecondByteFields(l, n);
  }

  lemma FieldsOfFirstByte(b: byte)
    ensures FirstByte(b >= 0x80, b / 0x10 % 8, b % 0x10) == b
  {
  }

  lemma FieldsOfLength(data: seq<byte>, l: Layout)
    requires DecodeHeader(data).Some? && l.key == DecodeHeader(data).value.key
    requires var ext := ExtLen(data[1] % 0x80);
      l.rsv < 8 && l.form == if ext == 0 then Short else if ext == 2 then Medium else Long
    ensures var n, ext := DecodeHeader(data).value.plen, ExtLen(data[1] % 0x80);
      l.Fits(n) && l.SecondByte(n) == data[1] && l.ExtendedLength(n) == data[2..2 + ext]
  {
    hide ToBe, FromBe, Pow256;
    var n, len7 := DecodeHeader(data).value.plen, data[1] % 0x80;
    if len7 == 126 {
      ToFromBe(data[2..4]);
      assert n == FromBe(data[2..4]) < Pow256(2);
    } else if len7 == 127 {
      ToFromBe(data[2..10]);
      assert n == FromBe(data[2..10]) < Pow256(8);
    } else {
      assert n == len7;
    }
  }

  /** Every complete header is the head of some layout. */
  lemma HeadOf(data: seq<byte>) returns (l: Layout)
    requires DecodeHeader(data).Some?
    ensures var h := DecodeHeader(data).value;
      h.opcode < 16 && l.key == h.key && l.Fits(h.plen) && l.Head(h.fin, h.opcode, h.plen) == data[..h.off]
  {
    var h := DecodeHeader(data).value;
    var ext := ExtLen(data[1] % 0x80);
    l := Layout(data[0] / 0x10 % 8, if ext == 0 then Short else if ext == 2 then Medium else Long, h.key);
    FieldsOfLength(data, l);
    FieldsOfFirstByte(data[0]);
    assert data[..h.off] == [data[0], data[1]] + data[2..2 + ext] + h.key;
  }

  /** Bytes after a complete header do not change how it reads. */
  lemma HeaderOfPrefix(data: seq<byte>, k: nat)
    requires k <= |data| && DecodeHeader(data).Some? && DecodeHeader(data).value.off <= k
    ensures DecodeHeader(data[..k]) == DecodeHeader(data)
  {
    var h := DecodeHeader(data).value;
    var l := HeadOf(data);
    var head := l.Head(h.fin, h.opcode, h.plen);
    DecodeHead(l, h.fin, h.opcode, h.plen, data[h.off..k]);
    assert data[..k] == head + data[h.off..k];
  }

  // ----- the parser accepts exactly the wire format

  lemma ParseRendered(l: Layout, f: Frame, rest: seq<byte>)
    requires |f.payload| <= OVERSIZE && f.opcode < 16 && l.Fits(|f.payload|)
    ensures Parse(l.Render(f) + rest) == Some(Parsed(f, |l.Render(f)|))
  {
    hide DecodeHeader, Mask, Layout.ExtendedLength;
    var head, body := l.Head(f.fin, f.opcode, |f.payload|), Mask(f.payload, l.key);
    var data := l.Render(f) + rest;
    assert data == head + (body + rest) && data[|head|..|head| + |body|] == body;
    assert DecodeHeader(data) == Some(Header(f.fin, f.opcode, |f.payload|, l.key, |head|)) by {
      DecodeHead(l, f.fin, f.opcode, |f.payload|, body + rest);
    }
    MaskTwice(f.payload, l.key);
  }

  lemma ParseOnlyRendered(data: seq<byte>) returns (l: Layout)
    requires Parse(data).Some? && |Parse(data).value.frame.payload| <= OVERSIZE
    ensures var Parsed(f, used) := Parse(data).value;
      f.opcode < 16 && l.Fits(|f.payload|) && l.Render(f) == data[..used]
  {
    hide DecodeHeader, Layout.Head, Mask, Pow256;
    var h := DecodeHeader(data).value;
    l := HeadOf(data);
    var body := data[h.off..h.off + h.plen];
    MaskTwice(body, h.key);
    assert data[..h.off + h.plen] == data[..h.off] + body;
  }

  /**
   A buffer parses to a frame of at most 65536 bytes, taking `used` of them, exactly when its
   first `used` bytes are some layout of that frame.
   */
  lemma ParseIffWireFormat(data: seq<byte>, f: Frame, used: nat)
    requires |f.payload| <= OVERSIZE && used <= |data|
    ensures Parse(data) == Some(Parsed(f, used))
       <==> f.opcode < 16 && exists l: Layout :: l.Fits(|f.payload|) && l.Render(f) == data[..used]
  {
    hide Parse, Layout.Render, Layout.Fits;
    if Parse(data) == Some(Parsed(f, used)) {
      var l := ParseOnlyRendered(data);
      assert l.Fits(|f.payload|) && l.Render(f) == data[..used];
    }
    if l: Layout :| f.opcode < 16 && l.Fits(|f.payload|) && l.Render(f) == data[..used] {
      assert data == l.Render(f) + data[used..];
      ParseRendered(l, f, data[used..]);
    }
  }

  /** Only the first `used` bytes matter, and every shorter prefix is rejected. */
  lemma ParseOfPrefix(data: seq<byte>, k: nat)
    requires Parse(data).Some? && |Parse(data).value.frame.payload| <= OVERSIZE && k <= |data|
    ensures Parse(data[..k]) == if Parse(data).value.used <= k then Parse(data) else None
  {
    var h := DecodeHeader(data).value;
    if h.off <= k {
      HeaderOfPrefix(data, k);
      if h.off + h.plen <= k {
        assert data[..k][h.off..h.off + h.plen] == data[h.off..h.off + h.plen];
      }
    }
  }

  // ----- the builder against the parser

  lemma ParseEncoded(f: Frame, rest: seq<byte>)
    requires |f.payload| <= OVERSIZE && f.opcode < 16
    ensures Parse(Encode(f) + rest) == Some(Parsed(f, |Encode(f)|))
  {
    Pow256Values();
    EncodeIsMinimal(f);
    ParseRendered(Minimal(|f.payload|), f, rest);
  }

  /** Section 5.3 of RFC 6455: mask bit set, key inserted before the payload at `off`, payload XORed. */
  function MaskFrom(out: seq<byte>, off: nat, key: seq<byte>): seq<byte>
    requires 2 <= off <= |out| && |key| == 4
  {
    [out[0], if out[1] < 0x80 then out[1] + 0x80 else out[1]] + out[2..off] + key + Mask(out[off..], key)
  }

  /** A built frame masked on its way to the wire. */
  function MaskOnWire(f: Frame, key: seq<byte>): seq<byte>
    requires |key| == 4
  {
    MaskFrom(Encode(f), |Encode(f)| - |f.payload|, key)
  }

  lemma MaskFromParts(b0: byte, b1: byte, ext: seq<byte>, payload: seq<byte>, key: seq<byte>)
    requires b1 < 0x80 && |key| == 4
    ensures MaskFrom([b0, b1] + ext + payload, 2 + |ext|, key) == [b0, b1 + 0x80] + ext + key + Mask(payload, key)
  {
    hide Mask;
    var out := [b0, b1] + ext + payload;
    assert out[2..2 + |ext|] == ext && out[2 + |ext|..] == payload;
  }

  /** A key changes a head only by the mask bit and by the key at its end. */
  lemma MaskedHead(l: Layout, fin: bool, opcode: byte, n: nat, key: seq<byte>)
    requires l.Fits(n) && l.key == [] && |key| == 4
    ensures l.(key := key).Fits(n)
    ensures l.(key := key).Head(fin, opcode, n)
         == [FirstByte(fin, l.rsv, opcode), l.SecondByte(n) + 0x80] + l.ExtendedLength(n) + key
  {
  }

  lemma MaskOnWireIsLayout(f: Frame, key: seq<byte>) returns (l: Layout)
    requires |f.payload| < Pow256(8) && |key| == 4
    ensures l.Fits(|f.payload|) && MaskOnWire(f, key) == l.Render(f) && |l.Render(f)| == |Encode(f)| + 4
  {
    hide Pow256, FirstByte, Layout.ExtendedLength, Mask, Encode, MaskFrom;
    var n, m := |f.payload|, Minimal(|f.payload|);
    var b0, b1, ext := FirstByte(f.fin, 0, f.opcode), m.SecondByte(n), m.ExtendedLength(n);
    EncodeIsMinimal(f);
    assert Encode(f) == [b0, b1] + ext + f.payload;
    MaskFromParts(b0, b1, ext, f.payload, key);
    MaskedHead(m, f.fin, f.opcode, n, key);
    l := m.(key := key);
  }

  lemma MaskedParsesAlike(f: Frame, key: seq<byte>, rest: seq<byte>)
    requires |f.payload| <= OVERSIZE && f.opcode < 16 && |key| == 4
    ensures Parse(MaskOnWire(f, key) + rest) == Some(Parsed(f, |Encode(f)| + 4))
  {
    Pow256Values();
    var l := MaskOnWireIsLayout(f, key);
    ParseRendered(l, f, rest);
  }

  /** Re-encoding what was parsed never takes more room, and parses to the same frame again. */
  lemma ReencodeIsShortest(data: seq<byte>)
    requires Parse(data).Some? && |Parse(data).value.frame.payload| <= OVERSIZE
    ensures var Parsed(f, used) := Parse(data).value;
      |Encode(f)| <= used && Parse(Encode(f)) == Some(Parsed(f, |Encode(f)|))
  {
    var f := Parse(data).value.frame;
    var l := ParseOnlyRendered(data);
    Pow256Values();
    ParseEncoded(f, []);
    assert Encode(f) + [] == Encode(f);
  }

  lemma HeaderNeedsAll(data: seq<byte>, k: nat)
    requires DecodeHeader(data).Some? && k < DecodeHeader(data).value.off
    ensures DecodeHeader(data[..k]).None?
  {
    hide FromBe;
  }

  /**
   A frame cut short, in any layout: below the oversize limit every proper prefix is rejected; above
   it the header is enough, and the payload reported is as long as declared but all zero.
   */
  lemma PrefixOfRendered(l: Layout, f: Frame, k: nat)
    requires f.opcode < 16 && l.Fits(|f.payload|) && k < |l.Render(f)|
    ensures var n := |f.payload|;
      Parse(l.Render(f)[..k])
      == if n > OVERSIZE && k >= |l.Head(f.fin, f.opcode, n)| then Some(Parsed(Frame(f.fin, f.opcode, Zeros(n)), k))
         else None
  {
    hide DecodeHeader, Mask, Layout.Head, Zeros;
    var n, data := |f.payload|, l.Render(f);
    var head := l.Head(f.fin, f.opcode, n);
    if n <= OVERSIZE {
      ParseRendered(l, f, []);
      assert data + [] == data;
      ParseOfPrefix(data, k);
    } else {
      DecodeHead(l, f.fin, f.opcode, n, Mask(f.payload, l.key));
      if k >= |head| { HeaderOfPrefix(data, k); } else { HeaderNeedsAll(data, k); }
    }
  }

  /** The same for what the builder emits, whose oversize header is ten bytes. */
  lemma PrefixOfEncoding(f: Frame, k: nat)
    requires f.opcode < 16 && |f.payload| < Pow256(8) && k < |Encode(f)|
    ensures |f.payload| <= OVERSIZE || k < 10 ==> Parse(Encode(f)[..k]) == None
    ensures |f.payload| > OVERSIZE && k >= 10
        ==> Parse(Encode(f)[..k]) == Some(Parsed(Frame(f.fin, f.opcode, Zeros(|f.payload|)), k))
  {
    hide Parse, Encode, Zeros;
    EncodeIsMinimal(f);
    PrefixOfRendered(Minimal(|f.payload|), f, k);
  }

  // ----- lists of frames

  function EncodeAll(fs: seq<Frame>): seq<byte>
  {
    if fs == [] then [] else Encode(fs[0]) + EncodeAll(fs[1..])
  }

  /** Parse, advance by `used`, repeat: the frames found and the bytes left when parsing stops. */
  function DecodeAll(data: seq<byte>): (seq<Frame>, seq<byte>)
    decreases |data|
  {
    match Parse(data)
    case None => ([], data)
    case Some(p) =>
      var (fs, rest) := DecodeAll(data[p.used..]);
      ([p.frame] + fs, rest)
  }

  lemma {:induction false} StreamRoundTrip(fs: seq<Frame>)
    requires forall f :: f in fs ==> |f.payload| <= OVERSIZE && f.opcode < 16
    ensures DecodeAll(EncodeAll(fs)) == (fs, [])
  {
    if fs != [] {
      var tail := EncodeAll(fs[1..]);
      ParseEncoded(fs[0], tail);
      assert (Encode(fs[0]) + tail)[|Encode(fs[0])|..] == tail;
      StreamRoundTrip(fs[1..]);
      assert fs == [fs[0]] + fs[1..];
    }
  }

  /** The header of an encoding, whatever follows and however long the payload. */
  lemma EncodedHeader(f: Frame, x: seq<byte>) returns (off: nat)
    requires f.opcode < 16 && |f.payload| < Pow256(8)
    ensures off + |f.payload| == |Encode(f)| && (Encode(f) + x)[off..] == f.payload + x
    ensures DecodeHeader(Encode(f) + x) == Some(Header(f.fin, f.opcode, |f.payload|, [], off))
  {
    hide DecodeHeader, ToBe, Pow256, FirstByte;
    var n := |f.payload|;
    var head := Minimal(n).Head(f.fin, f.opcode, n);
    off := |head|;
    EncodeIsMinimal(f);
    DecodeHead(Minimal(n), f.fin, f.opcode, n, f.payload + x);
    assert Encode(f) + x == head + (f.payload + x);
  }

  /**
   No encoding is a prefix of another frame's encoding, at any payload length a 64-bit size can
   hold: the first frame of a byte string, and what follows it, are determined.
   */
  lemma PrefixFree(f: Frame, g: Frame, x: seq<byte>, y: seq<byte>)
    requires f.opcode < 16 && g.opcode < 16
    requires |f.payload| < Pow256(8) && |g.payload| < Pow256(8)
    requires Encode(f) + x == Encode(g) + y
    ensures f == g && x == y
  {
    var off := EncodedHeader(f, x);
    var off' := EncodedHeader(g, y);
    var n := |f.payload|;
    assert f.payload == (f.payload + x)[..n] && x == (f.payload + x)[n..];
    assert g.payload == (g.payload + y)[..n] && y == (g.payload + y)[n..];
  }

  lemma {:induction false} EncodeAllInjective(fs: seq<Frame>, gs: seq<Frame>)
    requires forall f :: f in fs ==> |f.payload| < Pow256(8) && f.opcode < 16
    requires forall g :: g in gs ==> |g.payload| < Pow256(8) && g.opcode < 16
    requires EncodeAll(fs) == EncodeAll(gs)
    ensures fs == gs
  {
    if fs != [] && gs != [] {
      PrefixFree(fs[0], gs[0], EncodeAll(fs[1..]), EncodeAll(gs[1..]));
      EncodeAllInjective(fs[1..], gs[1..]);
    }
  }
}
