/** How one connection treats messages: payload limits, fragments and what is reassembled from them. */
module MessageLaws {
  import opened Bytes
  import opened Frames
  import opened FrameLaws
  import opened Handshake
  import opened Connection

  // ----- payload limits

  /** What passes the size check really arrived: unmasked from the buffer, at most 4092 octets. */
  lemma AcceptedPayload(data: seq<byte>, maxPayload: int)
    requires |data| <= FRAME_BUFFER && 0 <= maxPayload <= OVERSIZE
    requires Parse(data).Some? && |Parse(data).value.frame.payload| <= SizeT(maxPayload)
    ensures var h, payload := DecodeHeader(data).value, Parse(data).value.frame.payload;
      && DecodeHeader(data).Some? && |payload| <= 4092
      && h.off + |payload| <= |data|
      && payload == Mask(data[h.off..h.off + |payload|], h.key)
  {
  }

  /**
   A first receive of a frame no single receive can hold, in any layout: 1002, or, once the header of
   a declared length above 65536 is there, 1009 or a message of zeros, as the limit has it.
   */
  lemma LargeFrameAnswer(p: Option<Partial>, l: Layout, f: Frame, k: nat, maxPayload: int)
    requires f.opcode < 16 && l.Fits(|f.payload|) && |l.Render(f)| > FRAME_BUFFER
    requires 1 <= k <= FRAME_BUFFER
    ensures var n := |f.payload|;
      OnData(p, l.Render(f)[..k], maxPayload)
      == if n <= OVERSIZE || k < |l.Head(f.fin, f.opcode, n)| then Goodbye(1002, "protocol error")
         else if n > SizeT(maxPayload) then Goodbye(1009, "message too big")
         else OnFrame(p, Frame(f.fin, f.opcode, Zeros(n)))
  {
    hide Parse, CloseWith, Zeros, OnFrame, Layout.Render, Layout.Head;
    PrefixOfRendered(l, f, k);
  }

  /** Which frames those are: every layout of 4093 payload octets or more, and no layout below 4083. */
  lemma LargeLayouts(l: Layout, f: Frame)
    requires l.Fits(|f.payload|)
    ensures |f.payload| >= 4093 ==> |l.Render(f)| > FRAME_BUFFER
    ensures |f.payload| < 4083 ==> |l.Render(f)| <= FRAME_BUFFER
  {
    hide Mask;
  }

  /**
   An oversize declared length: the header alone is answered, whatever follows it, with 1009 or, when
   the limit allows the length, as a frame of that many zeros.
   */
  lemma OversizeAnswer(p: Option<Partial>, l: Layout, fin: bool, opcode: byte, n: nat, rest: seq<byte>,
                       maxPayload: int)
    requires opcode < 16 && l.Fits(n) && n > OVERSIZE
    ensures |l.Head(fin, opcode, n)| <= 14
    ensures OnData(p, l.Head(fin, opcode, n) + rest, maxPayload)
         == if n > SizeT(maxPayload) then Goodbye(1009, "message too big")
            else OnFrame(p, Frame(fin, opcode, Zeros(n)))
  {
    hide CloseWith, Zeros, OnFrame, DecodeHeader;
    DecodeHead(l, fin, opcode, n, rest);
  }

  /** So at most fourteen octets make a message of any length the limit allows, all zero. */
  lemma ZerosDelivered(p: Option<Partial>, l: Layout, isText: bool, n: nat, maxPayload: int)
    requires l.Fits(n) && OVERSIZE < n <= SizeT(maxPayload)
    ensures var head := l.Head(true, if isText then OP_TEXT else OP_BINARY, n);
      |head| <= 14 && OnData(p, head, maxPayload) == Reaction(Open(p), Deliver(Zeros(n), isText))
  {
    hide CloseWith, Zeros, OnData, Deliver, Layout.Head;
    var opcode := if isText then OP_TEXT else OP_BINARY;
    var head := l.Head(true, opcode, n);
    OversizeAnswer(p, l, true, opcode, n, [], maxPayload);
    assert head + [] == head;
  }

  /** No payload longer than the receive it came in gets past the size check. */
  ghost predicate PayloadsArrive(maxPayload: int)
  {
    forall data: seq<byte> :: |data| <= FRAME_BUFFER && Parse(data).Some? ==>
      |Parse(data).value.frame.payload| <= SizeT(maxPayload) ==> |Parse(data).value.frame.payload| <= |data|
  }

  /** For which limits that holds: not above 65536, and not negative, where the conversion makes them huge. */
  lemma LimitsThatHold(maxPayload: int)
    requires -0x8000_0000 <= maxPayload < 0x8000_0000
    ensures PayloadsArrive(maxPayload) <==> 0 <= maxPayload <= OVERSIZE
  {
    hide Parse, Zeros, Layout.Head, Mask;
    if 0 <= maxPayload <= OVERSIZE {
      forall data: seq<byte> | |data| <= FRAME_BUFFER && Parse(data).Some?
          && |Parse(data).value.frame.payload| <= SizeT(maxPayload)
        ensures |Parse(data).value.frame.payload| <= |data|
      {
        AcceptedPayload(data, maxPayload);
      }
    } else {
      ZeroFrame();
      var l, n := Layout(0, Long, []), OVERSIZE + 1;
      var head := l.Head(true, OP_BINARY, n);
      assert |head| <= FRAME_BUFFER && Parse(head).Some? && |Parse(head).value.frame.payload| == n <= SizeT(maxPayload);
    }
  }

  lemma ZeroFrame()
    ensures var l, n := Layout(0, Long, []), OVERSIZE + 1;
      && l.Fits(n) && |l.Head(true, OP_BINARY, n)| == 10
      && Parse(l.Head(true, OP_BINARY, n)) == Some(Parsed(Frame(true, OP_BINARY, Zeros(n)), 10))
  {
    hide DecodeHeader, Zeros;
    Pow256Values();
    var l, n := Layout(0, Long, []), OVERSIZE + 1;
    DecodeHead(l, true, OP_BINARY, n, []);
    assert l.Head(true, OP_BINARY, n) + [] == l.Head(true, OP_BINARY, n);
  }

  /** One receive, one frame: whatever follows the first frame in the buffer is dropped. */
  lemma TrailingBytesAreDropped(p: Option<Partial>, data: seq<byte>, k: nat, maxPayload: int)
    requires Parse(data).Some? && |Parse(data).value.frame.payload| <= OVERSIZE
    requires Parse(data).value.used <= k <= |data|
    ensures OnData(p, data, maxPayload) == OnData(p, data[..k], maxPayload)
  {
    hide Parse, CloseWith, OnFrame;
    ParseOfPrefix(data, k);
  }

  /** A close frame reads back as one, with its code in the first two payload octets. */
  lemma CloseCodeReadsBack(code: nat, reason: string)
    requires code < 0x1_0000 && |reason| <= 1000
    ensures var r := Parse(CloseWith(code, reason));
      && r == Some(Parsed(CloseFrame(code, Octets(reason)), |CloseWith(code, reason)|))
      && FromBe(r.value.frame.payload[..2]) == code && r.value.frame.payload[2..] == Octets(reason)
  {
    hide Parse, Encode, FromBe, ToBe, Octets;
    Pow256Values();
    var f := CloseFrame(code, Octets(reason));
    ParseEncoded(f, []);
    assert Encode(f) + [] == Encode(f);
    FromToBe(code, 2);
    assert f.payload[..2] == ToBe(code, 2) && f.payload[2..] == Octets(reason);
  }

  /** The status code a peer reads from what it was sent, if that is a close frame. */
  function CodeRead(o: Out): Option<nat>
  {
    if !o.Send? then None
    else
      match Parse(o.bytes)
      case None => None
      case Some(x) =>
        if x.frame.opcode == OP_CLOSE && |x.frame.payload| >= 2 then Some(FromBe(x.frame.payload[..2])) else None
  }

  lemma GoodbyeCode(code: nat, reason: string)
    requires code < 0x1_0000 && |reason| <= 1000
    ensures CodeRead(Goodbye(code, reason).outs[0]) == Some(code)
  {
    hide Parse, FromBe, CloseWith, Octets;
    CloseCodeReadsBack(code, reason);
  }

  /** The code a receive that parses to `x` should end the connection with, if it should. */
  function FarewellFor(x: Option<Parsed>, maxPayload: int): Option<nat>
  {
    if x.None? then Some(1002)
    else if |x.value.frame.payload| > SizeT(maxPayload) then Some(1009)
    else if x.value.frame.opcode == OP_CLOSE then Some(1000)
    else if x.value.frame.opcode in [OP_CONT, OP_TEXT, OP_BINARY, OP_PING] then None
    else Some(1002)
  }

  /** When a receive ends a connection, and which code its peer then reads. */
  lemma FarewellCode(p: Option<Partial>, data: seq<byte>, maxPayload: int)
    requires data != []
    ensures var r, code := OnData(p, data, maxPayload), FarewellFor(Parse(data), maxPayload);
      && (r.conn.Closed? <==> code.Some?)
      && (r.conn.Closed? ==> |r.outs| == 2 && CodeRead(r.outs[0]) == code && r.outs[1] == OnClose)
  {
    hide Parse, CloseWith, CodeRead;
    GoodbyeCode(1000, "normal closure");
    GoodbyeCode(1002, "protocol error");
    GoodbyeCode(1009, "message too big");
  }

  /** A PONG is answered as an unknown opcode is. */
  lemma PongIsRefused(p: Option<Partial>, data: seq<byte>, maxPayload: int)
    requires Parse(data).Some? && Parse(data).value.frame.opcode == OP_PONG
    requires |Parse(data).value.frame.payload| <= SizeT(maxPayload)
    ensures OnData(p, data, maxPayload) == Goodbye(1002, "protocol error")
    ensures CodeRead(OnData(p, data, maxPayload).outs[0]) == Some(1002)
  {
    hide Parse, CloseWith, CodeRead;
    GoodbyeCode(1002, "protocol error");
  }

  /**
   An echo reads back as one final frame of the message's type with the whole message in it exactly
   when the message is at most 65536 octets, or all zero: longer ones read back as zeros.
   */
  lemma EchoReadsBack(data: seq<byte>, isText: bool)
    requires |data| < Pow256(8)
    ensures var out := MessageFrame(data, isText);
      Parse(out) == Some(Parsed(Frame(true, if isText then OP_TEXT else OP_BINARY, data), |out|))
      <==> |data| <= OVERSIZE || data == Zeros(|data|)
  {
    hide DecodeHeader, Encode, Zeros, Mask;
    var f := Frame(true, if isText then OP_TEXT else OP_BINARY, data);
    if |data| <= OVERSIZE {
      ParseEncoded(f, []);
    } else {
      var off := EncodedHeader(f, []);
    }
    assert Encode(f) + [] == Encode(f);
  }

  // ----- fragments in progress

  /** A first fragment: a text or binary frame without FIN. */
  predicate Opens(f: Frame)
  {
    !f.fin && (f.opcode == OP_TEXT || f.opcode == OP_BINARY)
  }

  /** A last fragment. */
  predicate Finishes(f: Frame)
  {
    f.fin && f.opcode == OP_CONT
  }

  /** Frame `i` is the last one to open a message, and that message is not finished. */
  ghost predicate OpenedAt(fs: seq<Frame>, i: nat)
  {
    && i < |fs| && Opens(fs[i])
    && forall j :: i < j < |fs| ==> !Opens(fs[j]) && !Finishes(fs[j])
  }

  /** Some message is open and not finished. */
  ghost predicate LeavesOpen(fs: seq<Frame>)
  {
    exists i: nat :: OpenedAt(fs, i)
  }

  /** All continuation payloads, in order. */
  function ContinuationBytes(fs: seq<Frame>): seq<byte>
  {
    if fs == [] then []
    else
      var f := fs[|fs| - 1];
      ContinuationBytes(fs[..|fs| - 1]) + if f.opcode == OP_CONT then f.payload else []
  }

  /** The message the history of a connection's frames leaves in progress, opened by frame `i`. */
  ghost function MessageFrom(fs: seq<Frame>, i: nat): Partial
    requires i < |fs|
  {
    Partial(fs[i].opcode == OP_TEXT, fs[i].payload + ContinuationBytes(fs[i + 1..]))
  }

  /** `p` is the message the frames `fs` leave unfinished, or none when they leave none. */
  ghost predicate IsUnfinished(fs: seq<Frame>, p: Option<Partial>)
  {
    && (forall i: nat :: OpenedAt(fs, i) ==> p == Some(MessageFrom(fs, i)))
    && (p.Some? ==> LeavesOpen(fs))
  }

  /** The machine on frames alone. */
  function FrameRun(c: Conn, fs: seq<Frame>): Reaction
  {
    if fs == [] then Reaction(c, [])
    else
      var before := FrameRun(c, fs[..|fs| - 1]);
      if !before.conn.Open? then before
      else
        var r := OnFrame(before.conn.partial, fs[|fs| - 1]);
        Reaction(r.conn, before.outs + r.outs)
  }

  /**
   While a connection is open, its message in progress is determined by the frames it has had: the
   last opener's payload and type, and every continuation since. Continuations before any opener,
   or after a final one, are in no message.
   */
  lemma {:induction false} FragmentsInProgress(fs: seq<Frame>)
    requires FrameRun(Open(None), fs).conn.Open?
    ensures IsUnfinished(fs, FrameRun(Open(None), fs).conn.partial)
    decreases |fs|
  {
    hide MessageFrom, Deliver, CloseWith, Encode;
    if fs != [] {
      var init, f := fs[..|fs| - 1], fs[|fs| - 1];
      FragmentsInProgress(init);
      var before := FrameRun(Open(None), init).conn.partial;
      var p := FrameRun(Open(None), fs).conn.partial;
      forall i: nat | OpenedAt(fs, i) ensures p == Some(MessageFrom(fs, i)) {
        if i < |init| {
          assert OpenedAt(init, i);
          MessageGrows(fs, i);
        } else {
          FreshMessage(fs, i);
        }
      }
      if p.Some? {
        if Opens(f) {
          assert OpenedAt(fs, |init|);
        } else {
          var i: nat :| OpenedAt(init, i);
          assert OpenedAt(fs, i);
        }
      }
    }
  }

  lemma FreshMessage(fs: seq<Frame>, i: nat)
    requires i == |fs| - 1
    ensures MessageFrom(fs, i) == Partial(fs[i].opcode == OP_TEXT, fs[i].payload)
  {
    assert fs[i + 1..] == [];
    assert fs[i].payload + [] == fs[i].payload;
  }

  lemma MessageGrows(fs: seq<Frame>, i: nat)
    requires i < |fs| - 1
    ensures var m, f := MessageFrom(fs[..|fs| - 1], i), fs[|fs| - 1];
      MessageFrom(fs, i) == if f.opcode == OP_CONT then m.(data := m.data + f.payload) else m
  {
    var tail, init := fs[i + 1..], fs[..|fs| - 1];
    var rest := ContinuationBytes(init[i + 1..]);
    assert tail[..|tail| - 1] == init[i + 1..];
    assert fs[i].payload + (rest + tail[|tail| - 1].payload) == (fs[i].payload + rest) + tail[|tail| - 1].payload;
    assert rest + [] == rest;
  }

  /** What a final continuation delivers after any history of frames. */
  lemma FinalContinuation(fs: seq<Frame>, f: Frame)
    requires FrameRun(Open(None), fs).conn.Open? && Finishes(f)
    ensures var r := OnFrame(FrameRun(Open(None), fs).conn.partial, f);
      && r.conn == Open(None)
      && (forall i: nat :: OpenedAt(fs, i) ==>
            r.outs == Deliver(MessageFrom(fs, i).data + f.payload, MessageFrom(fs, i).isText))
      && (!LeavesOpen(fs) ==> r.outs == [])
  {
    hide FrameRun, OpenedAt, MessageFrom, Deliver, LeavesOpen;
    FragmentsInProgress(fs);
  }

  /** A continuation with no message to continue does nothing, whether it is the last or not. */
  lemma StrayContinuation(fs: seq<Frame>, f: Frame)
    requires FrameRun(Open(None), fs).conn.Open? && !LeavesOpen(fs) && f.opcode == OP_CONT
    ensures OnFrame(FrameRun(Open(None), fs).conn.partial, f) == Reaction(Open(None), [])
  {
    hide FrameRun, OpenedAt, MessageFrom, Deliver, LeavesOpen;
    FragmentsInProgress(fs);
  }

  // ----- from frames to octets

  /** The frames a connection in state `c` is given while open: what each of its receives parses to. */
  function FramesFrom(c: Conn, ios: seq<Io>, maxPayload: int): seq<Frame>
    decreases |ios|
  {
    if ios == [] then []
    else
      var init, io := ios[..|ios| - 1], ios[|ios| - 1];
      FramesFrom(c, init, maxPayload) +
      if RunFrom(c, init, maxPayload).conn.Open? && Parse(FirstRecv(io)).Some?
      then [Parse(FirstRecv(io)).value.frame] else []
  }

  /** The frames of a connection's whole life. */
  function FramesOf(ios: seq<Io>, maxPayload: int): seq<Frame>
  {
    FramesFrom(Handshaking, ios, maxPayload)
  }

  /** A receive of an open connection that stays open is the step of the frame it parses to. */
  lemma OpenStep(p: Option<Partial>, io: Io, maxPayload: int)
    requires React(Open(p), io, maxPayload).conn.Open?
    ensures Parse(FirstRecv(io)).Some?
    ensures React(Open(p), io, maxPayload) == OnFrame(p, Parse(FirstRecv(io)).value.frame)
  {
    hide Parse, OnFrame, FirstRecv, CloseWith;
  }

  /**
   A connection that is open is where the machine on frames would be, and after the answer to its
   handshake it has sent and called back what that machine does.
   */
  lemma {:induction false} LifeFollowsFrames(ios: seq<Io>, maxPayload: int)
    requires Life(ios, maxPayload).conn.Open?
    ensures var r, fr := Life(ios, maxPayload), FrameRun(Open(None), FramesOf(ios, maxPayload));
      r.conn == fr.conn && |r.outs| >= 2 && r.outs[2..] == fr.outs
    decreases |ios|
  {
    hide Parse, OnFrame, OnData, FirstRecv, Shake, FrameRun;
    var init, io := ios[..|ios| - 1], ios[|ios| - 1];
    var before := Life(init, maxPayload);
    if before.conn.Open? {
      LifeFollowsFrames(init, maxPayload);
      OpenStep(before.conn.partial, io, maxPayload);
      NextFrame(Open(None), FramesOf(init, maxPayload), Parse(FirstRecv(io)).value.frame);
      var outs := React(before.conn, io, maxPayload).outs;
      assert (before.outs + outs)[2..] == before.outs[2..] + outs;
    } else {
      NoFramesYet(init, maxPayload);
      ShakeOpensEmpty(io);
      NoFramesNoStep(Open(None));
      assert FramesOf(ios, maxPayload) == [];
      assert Life(ios, maxPayload).outs == Shake(io).outs;
    }
  }

  lemma NoFramesNoStep(c: Conn)
    ensures FrameRun(c, []) == Reaction(c, [])
  {
  }

  lemma {:induction false} OpenOrClosed(c: Conn, ios: seq<Io>, maxPayload: int)
    requires c.Open?
    ensures RunFrom(c, ios, maxPayload).conn != Handshaking
    decreases |ios|
  {
    hide React;
    if ios != [] {
      NeverShakesAgain(RunFrom(c, ios[..|ios| - 1], maxPayload).conn, ios[|ios| - 1], maxPayload);
    }
  }

  /** The same from any open state. */
  lemma {:induction false} RunFollowsFrames(c: Conn, ios: seq<Io>, maxPayload: int)
    requires c.Open? && RunFrom(c, ios, maxPayload).conn.Open?
    ensures RunFrom(c, ios, maxPayload) == FrameRun(c, FramesFrom(c, ios, maxPayload))
    decreases |ios|
  {
    hide Parse, OnFrame, OnData, FirstRecv, FrameRun;
    if ios == [] {
      NoFramesNoStep(c);
    } else {
      var init, io := ios[..|ios| - 1], ios[|ios| - 1];
      var before := RunFrom(c, init, maxPayload);
      OpenOrClosed(c, init, maxPayload);
      assert before.conn.Open?;
      RunFollowsFrames(c, init, maxPayload);
      OpenStep(before.conn.partial, io, maxPayload);
      NextFrame(c, FramesFrom(c, init, maxPayload), Parse(FirstRecv(io)).value.frame);
    }
  }

  lemma ShakeOpensEmpty(io: Io)
    ensures var r := Shake(io); (r.conn == Open(None) && |r.outs| == 2) || r.conn == Closed
  {
  }

  /** Only the handshake has no frames before it. */
  lemma {:induction false} NoFramesYet(ios: seq<Io>, maxPayload: int)
    ensures Life(ios, maxPayload).conn == Handshaking ==> FramesOf(ios, maxPayload) == []
    ensures Life(ios, maxPayload).conn == Handshaking ==> ios == []
    decreases |ios|
  {
    hide Parse, OnFrame, FirstRecv, Shake;
    if ios != [] {
      var init, io := ios[..|ios| - 1], ios[|ios| - 1];
      ShakeOpensEmpty(io);
      NeverShakesAgain(Life(init, maxPayload).conn, io, maxPayload);
    }
  }

  lemma NeverShakesAgain(c: Conn, io: Io, maxPayload: int)
    ensures React(c, io, maxPayload).conn != Handshaking
  {
    hide Parse, FirstRecv;
  }

  /** What the receive of `io` returns begins with `f`, laid out in any way, within both limits. */
  ghost predicate Carries(io: Io, f: Frame, maxPayload: int)
  {
    && f.opcode < 16 && |f.payload| <= SizeT(maxPayload)
    && exists l: Layout :: l.Fits(|f.payload|) && l.Render(f) <= FirstRecv(io)
  }

  /** A layout no longer than a frame buffer is of a frame below the oversize limit. */
  lemma PayloadFits(l: Layout, f: Frame)
    requires l.Fits(|f.payload|)
    ensures |f.payload| < |l.Render(f)|
  {
    hide Mask;
  }

  /** A receive that parses within the limit is the step of its frame. */
  lemma FrameStep(p: Option<Partial>, io: Io, maxPayload: int)
    requires Parse(FirstRecv(io)).Some? && |Parse(FirstRecv(io)).value.frame.payload| <= SizeT(maxPayload)
    ensures React(Open(p), io, maxPayload) == OnFrame(p, Parse(FirstRecv(io)).value.frame)
  {
    hide Parse, OnFrame, FirstRecv, CloseWith;
  }

  lemma ArrivesWhole(p: Option<Partial>, io: Io, f: Frame, maxPayload: int)
    requires Carries(io, f, maxPayload)
    ensures React(Open(p), io, maxPayload) == OnFrame(p, f)
  {
    hide OnFrame, Parse, CloseWith, Layout.Render;
    var data := FirstRecv(io);
    var l: Layout :| l.Fits(|f.payload|) && l.Render(f) <= data;
    PayloadFits(l, f);
    assert data == l.Render(f) + data[|l.Render(f)|..];
    ParseRendered(l, f, data[|l.Render(f)|..]);
  }

  /** Frames that each begin a receive of their own are handled one by one. */
  lemma {:induction false} WireRun(c: Conn, ios: seq<Io>, fs: seq<Frame>, maxPayload: int)
    requires c.Open? && |ios| == |fs| && forall k :: 0 <= k < |fs| ==> Carries(ios[k], fs[k], maxPayload)
    ensures RunFrom(c, ios, maxPayload) == FrameRun(c, fs)
    decreases |fs|
  {
    hide OnFrame, Carries;
    if fs != [] {
      var n := |fs| - 1;
      WireRun(c, ios[..n], fs[..n], maxPayload);
      var before := FrameRun(c, fs[..n]);
      if before.conn.Open? {
        ArrivesWhole(before.conn.partial, ios[n], fs[n], maxPayload);
      } else {
        NeverHandshaking(c, fs[..n]);
        assert before.outs + [] == before.outs;
      }
    }
  }

  lemma {:induction false} NeverHandshaking(c: Conn, fs: seq<Frame>)
    requires c.Open?
    ensures FrameRun(c, fs).conn != Handshaking
    decreases |fs|
  {
    if fs != [] { NeverHandshaking(c, fs[..|fs| - 1]); }
  }

  /** A message in one frame: the callback, then the echo; a message in fragments stays in progress. */
  lemma WholeMessage(p: Option<Partial>, io: Io, isText: bool, data: seq<byte>, maxPayload: int)
    requires Carries(io, Frame(true, if isText then OP_TEXT else OP_BINARY, data), maxPayload)
    ensures var echo := Encode(Frame(true, if isText then OP_TEXT else OP_BINARY, data));
      React(Open(p), io, maxPayload) == Reaction(Open(p), [OnMessage(data, isText), Send(echo)])
  {
    hide Carries, React, Encode;
    ArrivesWhole(p, io, Frame(true, if isText then OP_TEXT else OP_BINARY, data), maxPayload);
  }

  /** A ping draws one pong with its payload, whatever message is in progress, and changes nothing. */
  lemma PingIsAnswered(p: Option<Partial>, io: Io, data: seq<byte>, maxPayload: int)
    requires Carries(io, Frame(true, OP_PING, data), maxPayload)
    ensures React(Open(p), io, maxPayload) == Reaction(Open(p), [Send(Encode(Frame(true, OP_PONG, data)))])
  {
    hide Carries, React, Encode;
    ArrivesWhole(p, io, Frame(true, OP_PING, data), maxPayload);
  }

  // ----- a message sent in fragments

  /** What may come between the first and the last fragment of a message. */
  datatype Item = Fragment(data: seq<byte>) | Ping(data: seq<byte>)

  function ItemFrame(it: Item): Frame
  {
    match it
    case Fragment(d) => Frame(false, OP_CONT, d)
    case Ping(d) => Frame(true, OP_PING, d)
  }

  function ItemFrames(items: seq<Item>): (fs: seq<Frame>)
    ensures |fs| == |items|
  {
    seq(|items|, i requires 0 <= i < |items| => ItemFrame(items[i]))
  }

  /** What an item adds to the message, and what it draws at once. */
  function FragmentOf(it: Item): seq<byte>
  {
    if it.Fragment? then it.data else []
  }

  function PongFor(it: Item): seq<Out>
  {
    if it.Ping? then [Send(Encode(Frame(true, OP_PONG, it.data)))] else []
  }

  /** The fragments' payloads, joined. */
  function Joined(items: seq<Item>): seq<byte>
  {
    if items == [] then [] else Joined(items[..|items| - 1]) + FragmentOf(items[|items| - 1])
  }

  /** One pong for each ping, carrying its payload. */
  function Pongs(items: seq<Item>): seq<Out>
  {
    if items == [] then [] else Pongs(items[..|items| - 1]) + PongFor(items[|items| - 1])
  }

  /** The frames of a message cut into a first fragment, any number of others, and a last one. */
  function Fragmented(isText: bool, first: seq<byte>, items: seq<Item>, last: seq<byte>): seq<Frame>
  {
    [Frame(false, if isText then OP_TEXT else OP_BINARY, first)] + ItemFrames(items) + [Frame(true, OP_CONT, last)]
  }

  lemma OpenerStep(p: Option<Partial>, isText: bool, first: seq<byte>)
    ensures OnFrame(p, Frame(false, if isText then OP_TEXT else OP_BINARY, first))
         == Reaction(Open(Some(Partial(isText, first))), [])
  {
  }

  /** What each item does to a message in progress. */
  lemma ItemStep(m: Partial, it: Item)
    ensures OnFrame(Some(m), ItemFrame(it)) == Reaction(Open(Some(m.(data := m.data + FragmentOf(it)))), PongFor(it))
  {
    hide Encode;
    assert m.data + [] == m.data;
  }

  lemma {:induction false} MidMessage(p: Option<Partial>, isText: bool, first: seq<byte>, items: seq<Item>)
    ensures var opener := Frame(false, if isText then OP_TEXT else OP_BINARY, first);
      FrameRun(Open(p), [opener] + ItemFrames(items))
      == Reaction(Open(Some(Partial(isText, first + Joined(items)))), Pongs(items))
    decreases |items|
  {
    hide OnFrame, ItemFrame, FrameRun, FragmentOf, PongFor;
    var opener := Frame(false, if isText then OP_TEXT else OP_BINARY, first);
    if items == [] {
      OpenerStep(p, isText, first);
      NoFramesNoStep(Open(p));
      NextFrame(Open(p), [], opener);
      assert [opener] + ItemFrames(items) == [] + [opener];
      assert first + [] == first;
    } else {
      var n := |items| - 1;
      var before, it := items[..n], items[n];
      MidMessage(p, isText, first, before);
      NextFrame(Open(p), [opener] + ItemFrames(before), ItemFrame(it));
      assert [opener] + ItemFrames(items) == [opener] + ItemFrames(before) + [ItemFrame(it)];
      ItemStep(Partial(isText, first + Joined(before)), it);
      assert first + Joined(items) == first + Joined(before) + FragmentOf(it);
    }
  }

  lemma NextFrame(c: Conn, fs: seq<Frame>, f: Frame)
    requires c.Open?
    ensures FrameRun(c, fs).conn.Open? ==> (
        var before := FrameRun(c, fs);
        var r := OnFrame(before.conn.partial, f);
        FrameRun(c, fs + [f]) == Reaction(r.conn, before.outs + r.outs))
  {
    hide OnFrame;
    assert (fs + [f])[..|fs|] == fs;
  }

  /**
   A message in two or more fragments, pings anywhere between them: one pong per ping, then the
   callback once with the whole message and its type, then one echo of the whole.
   */
  lemma FragmentedMessage(p: Option<Partial>, isText: bool, first: seq<byte>, items: seq<Item>, last: seq<byte>,
                          ios: seq<Io>, maxPayload: int)
    requires var fs := Fragmented(isText, first, items, last);
      |ios| == |fs| && forall k :: 0 <= k < |fs| ==> Carries(ios[k], fs[k], maxPayload)
    ensures RunFrom(Open(p), ios, maxPayload)
         == (var whole := first + Joined(items) + last;
             var echo := Encode(Frame(true, if isText then OP_TEXT else OP_BINARY, whole));
             Reaction(Open(None), Pongs(items) + [OnMessage(whole, isText), Send(echo)]))
  {
    hide Carries, Encode;
    var fs := Fragmented(isText, first, items, last);
    WireRun(Open(p), ios, fs, maxPayload);
    MidMessage(p, isText, first, items);
    assert fs[..|fs| - 1] == [Frame(false, if isText then OP_TEXT else OP_BINARY, first)] + ItemFrames(items);
  }

  /**
   Reassembly needs one frame per receive: whatever comes behind a first fragment in its receive is
   dropped, so a last fragment there delivers no message.
   */
  lemma CoalescedFragmentsAreLost(p: Option<Partial>, l: Layout, isText: bool, first: seq<byte>, last: seq<byte>,
                                  rest: seq<byte>, maxPayload: int)
    requires |first| <= OVERSIZE && |first| <= SizeT(maxPayload) && l.Fits(|first|)
    ensures var fs := Fragmented(isText, first, [], last);
      && OnData(p, l.Render(fs[0]) + rest, maxPayload) == Reaction(Open(Some(Partial(isText, first))), [])
      && FrameRun(Open(p), fs) == Reaction(Open(None), Deliver(first + last, isText))
  {
    hide Layout.Render, Parse, CloseWith, Deliver;
    var fs := Fragmented(isText, first, [], last);
    ParseRendered(l, fs[0], rest);
    OpenerStep(p, isText, first);
    MidMessage(p, isText, first, []);
    assert fs == [fs[0]] + ItemFrames([]) + [fs[1]];
    NextFrame(Open(p), [fs[0]] + ItemFrames([]), fs[1]);
    assert first + [] == first;
  }

  /** A life in two parts. */
  lemma {:induction false} RunInParts(c: Conn, a: seq<Io>, b: seq<Io>, maxPayload: int)
    ensures var r := RunFrom(c, a, maxPayload);
      var r' := RunFrom(r.conn, b, maxPayload);
      RunFrom(c, a + b, maxPayload) == Reaction(r'.conn, r.outs + r'.outs)
    decreases |b|
  {
    hide React;
    if b == [] {
      assert a + b == a;
      var r := RunFrom(c, a, maxPayload);
      assert r.outs + [] == r.outs;
    } else {
      var n := |b| - 1;
      RunInParts(c, a, b[..n], maxPayload);
      assert (a + b)[..|a + b| - 1] == a + b[..n];
    }
  }
}
