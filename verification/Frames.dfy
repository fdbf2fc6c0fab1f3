/**
 The frame codec of src/frame.cpp: the parser and the builders as the loops the source has,
 each proved against a specification function over byte strings.
 */
module Frames {
  import opened Bytes

  /** A frame. The source's `mask` and `masking_key` fields are neither read nor written by the codec. */
  datatype Frame = Frame(fin: bool, opcode: byte, payload: seq<byte>)

  const OP_CONT: byte := 0x0
  const OP_TEXT: byte := 0x1
  const OP_BINARY: byte := 0x2
  const OP_CLOSE: byte := 0x8
  const OP_PING: byte := 0x9
  const OP_PONG: byte := 0xA

  /** Declared payload lengths above this take the oversize branch of the parser. */
  const OVERSIZE := 65536

  /** What precedes the payload on the wire; `off` is where the payload starts. */
  datatype Header = Header(fin: bool, opcode: byte, plen: nat, key: seq<byte>, off: nat)

  /** A successful parse: the frame and how many bytes of the buffer it took. */
  datatype Parsed = Parsed(frame: Frame, used: nat)

  /** XOR with the four-byte key repeated (section 5.3 of RFC 6455); an empty key means unmasked. */
  function Mask(s: seq<byte>, key: seq<byte>): (r: seq<byte>)
    requires |key| == 0 || |key| == 4
    ensures |r| == |s|
  {
    if key == [] then s else seq(|s|, i requires 0 <= i < |s| => XorOctet(s[i], key[i % 4]))
  }

  /** Number of extended-length bytes the seven-bit length calls for. */
  function ExtLen(len7: byte): nat
  {
    if len7 == 126 then 2 else if len7 == 127 then 8 else 0
  }

  /** The header of a buffer, when all of it has arrived (section 5.2 of RFC 6455). */
  function DecodeHeader(data: seq<byte>): (r: Option<Header>)
    ensures r.Some? ==> 2 <= r.value.off <= |data| && r.value.off <= 14
    ensures r.Some? ==> |r.value.key| == 0 || |r.value.key| == 4
  {
    if |data| < 2 then None
    else
      var ext := ExtLen(data[1] % 0x80);
      var keyLen := if data[1] >= 0x80 then 4 else 0;
      if |data| < 2 + ext + keyLen then None
      else
        var plen := if ext == 0 then data[1] % 0x80 else FromBe(data[2..2 + ext]);
        Some(Header(data[0] >= 0x80, data[0] % 0x10, plen,
                    data[2 + ext..2 + ext + keyLen], 2 + ext + keyLen))
  }

  /** What the parser returns on a buffer. */
  function Parse(data: seq<byte>): (r: Option<Parsed>)
    ensures r.Some? ==> 2 <= r.value.used <= |data|
  {
    match DecodeHeader(data)
    case None => None
    case Some(h) =>
      if h.plen > OVERSIZE then
        Some(Parsed(Frame(h.fin, h.opcode, Zeros(h.plen)), |data|))
      else if |data| < h.off + h.plen then None
      else
        Some(Parsed(Frame(h.fin, h.opcode, Mask(data[h.off..h.off + h.plen], h.key)), h.off + h.plen))
  }

  /** The length part of an unmasked frame: one, three or nine bytes. */
  function LengthBytes(n: nat): seq<byte>
  {
    if n <= 125 then [n]
    else if n <= 0xFFFF then [126] + ToBe(n, 2)
    else [127] + ToBe(n, 8)
  }

  /** FIN, three reserved bits and the low four bits of the opcode. */
  function FirstByte(fin: bool, rsv: nat, opcode: byte): byte
    requires rsv < 8
  {
    (if fin then 0x80 else 0x00) + 0x10 * rsv + opcode % 0x10
  }

  /** What the builder emits for a frame. */
  function Encode(f: Frame): (s: seq<byte>)
    ensures |s| >= 2
  {
    [FirstByte(f.fin, 0, f.opcode)] + LengthBytes(|f.payload|) + f.payload
  }

  // ----- the source's own loops

  /** The payload loop of the parser: copy, unmasking on the way when there is a key. */
  method CopyPayload(src: seq<byte>, mask: bool, maskKey: seq<byte>) returns (payload: array<byte>)
    requires |maskKey| == if mask then 4 else 0
    ensures payload[..] == Mask(src, maskKey)
  {
    payload := new byte[|src|];
    if mask {
      for i := 0 to |src|
        invariant forall j :: 0 <= j < i ==> payload[j] == XorOctet(src[j], maskKey[j % 4])
      {
        payload[i] := XorOctet(src[i], maskKey[i % 4]);
      }
    } else {
      forall i | 0 <= i < |src| { payload[i] := src[i]; }
    }
  }

  /** The parser up to the payload: the two fixed bytes, the extended length, the masking key. */
  method ReadHeader(data: seq<byte>) returns (h: Option<Header>)
    ensures h == DecodeHeader(data)
  {
    var len := |data|;
    if len < 2 { return None; }
    var b0, b1 := data[0], data[1];
    var mask := b1 >= 0x80;
    var plen := b1 % 0x80;
    var off := 2;
    if plen == 126 {
      if len < 4 { return None; }
      plen := FromBe(data[2..4]);
      off := 4;
    } else if plen == 127 {
      if len < 10 { return None; }
      plen := FromBe(data[2..10]);
      off := 10;
    }
    assert off == 2 + ExtLen(b1 % 0x80);
    var maskKey: seq<byte> := [];
    if mask {
      if len < off + 4 { return None; }
      maskKey := data[off..off + 4];
      off := off + 4;
    }
    return Some(Header(b0 >= 0x80, b0 % 0x10, plen, maskKey, off));
  }

  /** The parser. `frame` and `used` are meaningful only when `ok`; callers pass a fresh frame. */
  method ParseFrame(data: seq<byte>) returns (ok: bool, frame: Frame, used: nat)
    ensures ok <==> Parse(data).Some?
    ensures ok ==> Parsed(frame, used) == Parse(data).value
  {
    frame, used := Frame(true, 0, []), 0;
    var len := |data|;
    var head := ReadHeader(data);
    if head.None? { return false, frame, used; }
    var Header(fin, opcode, plen, maskKey, off) := head.value;
    if plen > OVERSIZE {
      return true, Frame(fin, opcode, Zeros(plen)), len;
    }
    if len < off + plen { return false, frame, used; }
    var payload := CopyPayload(data[off..off + plen], maskKey != [], maskKey);
    return true, Frame(fin, opcode, payload[..]), off + plen;
  }

  /** The builder: bytes are pushed onto `out` one part after another. */
  method BuildFrame(f: Frame) returns (out: seq<byte>)
    ensures out == Encode(f)
  {
    out := [];
    out := out + [(if f.fin then 0x80 else 0x00) + f.opcode % 0x10];
    ghost var first := FirstByte(f.fin, 0, f.opcode);
    assert out == [first];
    var plen := |f.payload|;
    if plen <= 125 {
      out := out + [plen];
    } else if plen <= 0xFFFF {
      out := out + [126];
      out := out + ToBe(plen, 2);
    } else {
      out := out + [127];
      out := out + ToBe(plen, 8);
    }
    assert out == [first] + LengthBytes(plen);
    out := out + f.payload;
  }

  method BuildText(msg: seq<byte>, fin: bool := true) returns (out: seq<byte>)
    ensures out == Encode(Frame(fin, OP_TEXT, msg))
  {
    out := BuildFrame(Frame(fin, OP_TEXT, msg));
  }

  method BuildBinary(data: seq<byte>, fin: bool := true) returns (out: seq<byte>)
    ensures out == Encode(Frame(fin, OP_BINARY, data))
  {
    out := BuildFrame(Frame(fin, OP_BINARY, data));
  }

  method BuildContinuation(data: seq<byte>, fin: bool) returns (out: seq<byte>)
    ensures out == Encode(Frame(fin, OP_CONT, data))
  {
    out := BuildFrame(Frame(fin, OP_CONT, data));
  }

  /** A close frame carries the status code, then the reason. */
  function CloseFrame(code: nat, reason: seq<byte>): Frame
  {
    Frame(true, OP_CLOSE, ToBe(code, 2) + reason)
  }

  method BuildClose(code: nat, reason: seq<byte>) returns (out: seq<byte>)
    ensures out == Encode(CloseFrame(code, reason))
  {
    var payload := new byte[2 + |reason|];
    var v := ToBe(code, 2);
    payload[0], payload[1] := v[0], v[1];
    forall i | 0 <= i < |reason| { payload[2 + i] := reason[i]; }
    assert payload[..] == v + reason;
    out := BuildFrame(Frame(true, OP_CLOSE, payload[..]));
  }

  method BuildPong(ping: Frame) returns (out: seq<byte>)
    ensures out == Encode(Frame(true, OP_PONG, ping.payload))
  {
    out := BuildFrame(Frame(true, OP_PONG, ping.payload));
  }
}
