/**
 The codec and one connection told octet by octet, in numbers: an account of the wire that shares no
 definition with the parser, the builder or the reference machine.
 */
module OctetLaws {
  import Bits
  import opened Bytes
  import opened Frames
  import opened FrameLaws
  import opened Connection

  /** Where the payload starts, by the second octet. */
  function Start(second: byte): nat
  {
    2 + (if second % 128 == 126 then 2 else if second % 128 == 127 then 8 else 0) + (if second >= 128 then 4 else 0)
  }

  /** The payload length a complete header declares. */
  function Declared(data: seq<byte>): nat
    requires |data| >= 2 && |data| >= Start(data[1])
  {
    if data[1] % 128 == 126 then 0x100 * (data[2] as int) + data[3] as int
    else if data[1] % 128 == 127 then Numeral(data[2..10])
    else data[1] as int % 128
  }

  /** When a header is complete, and what it then says. */
  lemma HeaderInOctets(data: seq<byte>)
    ensures DecodeHeader(data).Some? <==> |data| >= 2 && |data| >= Start(data[1])
    ensures DecodeHeader(data).Some? ==> (
        var h := DecodeHeader(data).value;
        && (h.fin <==> data[0] >= 128) && h.opcode == data[0] % 16
        && h.plen == Declared(data) && h.off == Start(data[1])
        && h.key == if data[1] >= 128 then data[h.off - 4..h.off] else [])
  {
    hide FromBe;
    if DecodeHeader(data).Some? {
      if data[1] % 128 == 126 { TwoOctets(data[2..4]); }
      if data[1] % 128 == 127 { EightOctets(data[2..10]); }
    }
  }

  /**
   The parser in octets: which buffers parse, how many octets are used, and every octet of the payload,
   the i-th being XORed with the key's octet i mod 4 when the mask bit is set.
   */
  lemma ParseInOctets(data: seq<byte>)
    ensures Parse(data).Some? <==>
      && |data| >= 2 && |data| >= Start(data[1])
      && (Declared(data) > 65536 || |data| >= Start(data[1]) + Declared(data))
    ensures Parse(data).Some? ==> (
        var Parsed(f, used) := Parse(data).value;
        var n, at := Declared(data), Start(data[1]);
        && (f.fin <==> data[0] >= 128) && f.opcode == data[0] % 16 && |f.payload| == n
        && used == (if n > 65536 then |data| else at + n)
        && (forall i :: 0 <= i < n ==>
              f.payload[i] == if n > 65536 then 0
                              else if data[1] >= 128 then Bits.Xor(data[at + i], data[at - 4 + i % 4], 8)
                              else data[at + i]))
  {
    hide DecodeHeader, Declared, Bits.Xor;
    HeaderInOctets(data);
  }

  /** The builder in octets: no reserved bits, no key, the shortest length form. */
  lemma EncodeInOctets(f: Frame)
    requires f.opcode < 16 && |f.payload| < 0x1_0000_0000_0000_0000
    ensures var out, n := Encode(f), |f.payload|;
      && out[0] == (if f.fin then 128 else 0) + f.opcode
      && out[1] == (if n < 126 then n else if n < 0x1_0000 then 126 else 127)
      && |out| == Start(out[1]) + n && Declared(out) == n && out[Start(out[1])..] == f.payload
  {
    hide ToBe, FromBe, Pow256;
    var out, n := Encode(f), |f.payload|;
    Pow256Values();
    if 126 <= n < 0x1_0000 {
      assert out[2..4] == ToBe(n, 2);
      TwoOctets(out[2..4]);
      FromToBe(n, 2);
    } else if n >= 0x1_0000 {
      assert out[2..10] == ToBe(n, 8);
      EightOctets(out[2..10]);
      FromToBe(n, 8);
    }
  }

  // ----- one receive

  /** `o` hands the socket one frame: its first octet, the shortest unmasked length, the payload. */
  ghost predicate Sends(o: Out, first: byte, payload: seq<byte>)
  {
    && o.Send? && |o.bytes| >= 2 && o.bytes[0] == first && o.bytes[1] < 128
    && |o.bytes| == Start(o.bytes[1]) + |payload|
    && Declared(o.bytes) == |payload| && o.bytes[Start(o.bytes[1])..] == payload
  }

  /** The connection ends with a close frame of this code and reason, then the callback. */
  ghost predicate EndsWith(r: Reaction, code: int, reason: string)
    requires 0 <= code < 0x1_0000
  {
    && r.conn == Closed && |r.outs| == 2 && r.outs[1] == OnClose
    && Sends(r.outs[0], 0x88, [code / 0x100, code % 0x100] + Octets(reason))
  }

  lemma SendsEncoded(f: Frame)
    requires f.opcode < 16 && |f.payload| < 0x1_0000_0000_0000_0000
    ensures Sends(Send(Encode(f)), (if f.fin then 128 else 0) + f.opcode, f.payload)
  {
    hide Encode, Declared;
    EncodeInOctets(f);
  }

  lemma EndsWithGoodbye(code: nat, reason: string)
    requires code < 0x1_0000 && |reason| <= 100
    ensures EndsWith(Goodbye(code, reason), code, reason)
  {
    hide Encode, Sends, Octets;
    assert ToBe(code, 2) == [code / 0x100, code % 0x100];
    SendsEncoded(CloseFrame(code, Octets(reason)));
  }

  /** One readiness of an open connection is one receive of at most 4096 octets; with nothing there it ends. */
  lemma OneReceive(p: Option<Partial>, candidate: int, data: seq<byte>, more: seq<seq<byte>>, sendOk: bool,
                   maxPayload: int)
    ensures React(Open(p), Io(candidate, [data] + more, sendOk), maxPayload)
         == OnData(p, if |data| <= 4096 then data else data[..4096], maxPayload)
    ensures React(Open(p), Io(candidate, [], sendOk), maxPayload) == Reaction(Closed, [OnClose])
  {
    hide Parse, OnFrame;
  }

  /** A receive that brings no whole frame, or one above the limit. */
  lemma RefusedInOctets(p: Option<Partial>, data: seq<byte>, maxPayload: int)
    ensures var r, limit := OnData(p, data, maxPayload),
                            if maxPayload < 0 then maxPayload + 0x1_0000_0000_0000_0000 else maxPayload;
      && (data == [] ==> r == Reaction(Closed, [OnClose]))
      && (data != [] && Parse(data).None? ==> EndsWith(r, 1002, "protocol error"))
      && (Parse(data).Some? && |Parse(data).value.frame.payload| > limit ==> EndsWith(r, 1009, "message too big"))
  {
    hide Parse, Goodbye, EndsWith, OnFrame;
    EndsWithGoodbye(1002, "protocol error");
    EndsWithGoodbye(1009, "message too big");
    NothingInNothing();
  }

  lemma NothingInNothing()
    ensures Parse([]).None?
  {
  }

  /**
   A receive that brings a frame within the limit, opcode by opcode, whatever message is in progress:
   what the connection then is, what it calls back, and the first octet and payload of what it sends.
   */
  lemma AnsweredInOctets(p: Option<Partial>, data: seq<byte>, maxPayload: int)
    requires Parse(data).Some?
    requires var n := |Parse(data).value.frame.payload|;
      && n <= (if maxPayload < 0 then maxPayload + 0x1_0000_0000_0000_0000 else maxPayload)
      && n + (if p.Some? then |p.value.data| else 0) < 0x1_0000_0000_0000_0000
    ensures var Frame(fin, op, d) := Parse(data).value.frame;
      var r := OnData(p, data, maxPayload);
      var whole := if p.Some? then p.value.data + d else [];
      if op == 1 || op == 2 then
        if fin then
          && r.conn == Open(p) && |r.outs| == 2 && r.outs[0] == OnMessage(d, op == 1)
          && Sends(r.outs[1], 0x80 + op, d)
        else r == Reaction(Open(Some(Partial(op == 1, d))), [])
      else if op == 0 then
        if p.None? then r == Reaction(Open(None), [])
        else if !fin then r == Reaction(Open(Some(Partial(p.value.isText, whole))), [])
        else
          && r.conn == Open(None) && |r.outs| == 2 && r.outs[0] == OnMessage(whole, p.value.isText)
          && Sends(r.outs[1], if p.value.isText then 0x81 else 0x82, whole)
      else if op == 9 then r.conn == Open(p) && |r.outs| == 1 && Sends(r.outs[0], 0x8A, d)
      else if op == 8 then EndsWith(r, 1000, "normal closure")
      else EndsWith(r, 1002, "protocol error")
  {
    hide Parse, Goodbye, EndsWith, Sends, Encode;
    var Frame(fin, op, d) := Parse(data).value.frame;
    NothingInNothing();
    EndsWithGoodbye(1000, "normal closure");
    EndsWithGoodbye(1002, "protocol error");
    SendsEncoded(Frame(true, OP_TEXT, d));
    SendsEncoded(Frame(true, OP_BINARY, d));
    SendsEncoded(Frame(true, OP_PONG, d));
    if p.Some? {
      SendsEncoded(Frame(true, OP_TEXT, p.value.data + d));
      SendsEncoded(Frame(true, OP_BINARY, p.value.data + d));
    }
  }
}
