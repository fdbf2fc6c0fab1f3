/**
 Which cuttings of a byte stream into receives a connection reads as the frames that were sent.
 The server parses one frame from each receive and drops the rest, so not every cutting will do.
 */
module CutLaws {
  import opened Bytes
  import opened Frames
  import opened FrameLaws
  import opened Connection
  import opened MessageLaws

  // ----- two cuttings of one stream

  lemma {:induction false} NothingInside(chunks: seq<seq<byte>>)
    requires Flat(chunks) == []
    ensures forall c :: c in chunks ==> c == []
  {
    if chunks != [] {
      assert |Flat(chunks)| == |chunks[0]| + |Flat(chunks[1..])|;
      assert chunks == [chunks[0]] + chunks[1..];
      NothingInside(chunks[1..]);
    }
  }

  lemma {:induction false} LongerChunks(chunks: seq<seq<byte>>, rs: seq<seq<byte>>)
    requires |rs| <= |chunks| && forall k :: 0 <= k < |rs| ==> |rs[k]| <= |chunks[k]|
    ensures |Flat(rs)| <= |Flat(chunks)|
  {
    if rs != [] { LongerChunks(chunks[1..], rs[1..]); }
  }

  /** Two cuttings of one stream agree when no chunk of one is shorter than its partner in the other. */
  lemma {:induction false} CutsAgree(chunks: seq<seq<byte>>, rs: seq<seq<byte>>)
    requires |rs| <= |chunks| && forall k :: 0 <= k < |rs| ==> |rs[k]| <= |chunks[k]|
    requires Flat(chunks) == Flat(rs)
    ensures chunks[..|rs|] == rs && forall c :: c in chunks[|rs|..] ==> c == []
  {
    if rs == [] {
      NothingInside(chunks);
    } else {
      LongerChunks(chunks[1..], rs[1..]);
      var c, r := chunks[0], rs[0];
      assert |c| == |r|;
      assert c == Flat(chunks)[..|c|] == r;
      assert Flat(chunks[1..]) == Flat(chunks)[|c|..] == Flat(rs[1..]);
      CutsAgree(chunks[1..], rs[1..]);
      assert chunks[..|rs|] == [c] + chunks[1..][..|rs| - 1];
      assert chunks[|rs|..] == chunks[1..][|rs| - 1..];
    }
  }

  // ----- the frames a connection is given, receive by receive

  function Received(ios: seq<Io>): (chunks: seq<seq<byte>>)
    ensures |chunks| == |ios|
  {
    seq(|ios|, i requires 0 <= i < |ios| => FirstRecv(ios[i]))
  }

  /** The frame does not end the connection. */
  predicate KeepsOpen(f: Frame, maxPayload: int)
  {
    |f.payload| <= SizeT(maxPayload) && f.opcode in [OP_CONT, OP_TEXT, OP_BINARY, OP_PING]
  }

  predicate Gives(io: Io, f: Frame)
  {
    Parse(FirstRecv(io)).Some? && Parse(FirstRecv(io)).value.frame == f
  }

  /** Only the last frame may end the connection. */
  ghost predicate OpenUntilLast(fs: seq<Frame>, maxPayload: int)
  {
    forall k :: 0 <= k < |fs| - 1 ==> KeepsOpen(fs[k], maxPayload)
  }

  /** The receives parse to `fs` one by one, until the connection ends or the inputs do. */
  ghost predicate GivesFrames(ios: seq<Io>, fs: seq<Frame>, maxPayload: int)
  {
    && |fs| <= |ios|
    && (forall k :: 0 <= k < |fs| ==> Gives(ios[k], fs[k]))
    && OpenUntilLast(fs, maxPayload)
    && (|fs| == |ios| || Parse(FirstRecv(ios[|fs|])).None? || (fs != [] && !KeepsOpen(fs[|fs| - 1], maxPayload)))
  }

  lemma StaysOpen(p: Option<Partial>, io: Io, maxPayload: int)
    ensures var x := Parse(FirstRecv(io));
      React(Open(p), io, maxPayload).conn.Open? <==> x.Some? && KeepsOpen(x.value.frame, maxPayload)
  {
    hide Parse, FirstRecv, Encode;
    assert Parse([]).None? by { NoFrameInNothing(); }
  }

  lemma NoFrameInNothing()
    ensures Parse([]).None?
  {
  }

  /** The frames of a run are given so, and the run is open exactly when nothing has ended it. */
  lemma {:induction false} FramesAreGiven(c: Conn, ios: seq<Io>, maxPayload: int)
    requires c.Open?
    ensures var fs := FramesFrom(c, ios, maxPayload);
      && GivesFrames(ios, fs, maxPayload)
      && (RunFrom(c, ios, maxPayload).conn.Open?
          <==> |fs| == |ios| && forall f :: f in fs ==> KeepsOpen(f, maxPayload))
    decreases |ios|
  {
    hide Parse, FirstRecv, React, KeepsOpen;
    if ios != [] {
      var init, io := ios[..|ios| - 1], ios[|ios| - 1];
      var before, fs := RunFrom(c, init, maxPayload).conn, FramesFrom(c, init, maxPayload);
      FramesAreGiven(c, init, maxPayload);
      OpenOrClosed(c, init, maxPayload);
      if before.Open? {
        StaysOpen(before.partial, io, maxPayload);
      } else {
        assert FramesFrom(c, ios, maxPayload) == fs;
        ClosedStays(io, maxPayload);
      }
    }
  }

  lemma ClosedStays(io: Io, maxPayload: int)
    ensures React(Closed, io, maxPayload) == Reaction(Closed, [])
  {
  }

  lemma GivenOnce(ios: seq<Io>, fs: seq<Frame>, gs: seq<Frame>, maxPayload: int)
    requires GivesFrames(ios, fs, maxPayload) && GivesFrames(ios, gs, maxPayload)
    ensures |fs| <= |gs| && fs == gs[..|fs|]
  {
    hide Parse, FirstRecv, KeepsOpen;
    forall k | 0 <= k < |fs| && k < |gs| ensures fs[k] == gs[k] {
      assert Gives(ios[k], fs[k]) && Gives(ios[k], gs[k]);
    }
  }

  /** From an open state exactly the frames that the receives give, one by one, are handled. */
  lemma FramesExactly(c: Conn, ios: seq<Io>, fs: seq<Frame>, maxPayload: int)
    requires c.Open?
    ensures FramesFrom(c, ios, maxPayload) == fs <==> GivesFrames(ios, fs, maxPayload)
  {
    hide GivesFrames, FramesFrom, RunFrom;
    FramesAreGiven(c, ios, maxPayload);
    var gs := FramesFrom(c, ios, maxPayload);
    if GivesFrames(ios, fs, maxPayload) {
      GivenOnce(ios, fs, gs, maxPayload);
      GivenOnce(ios, gs, fs, maxPayload);
      assert fs == gs;
    }
  }

  // ----- the stream a sender made of frames

  /** `r` is `f` on the wire, in some layout. */
  ghost predicate LaidOut(r: seq<byte>, f: Frame)
  {
    f.opcode < 16 && |f.payload| <= OVERSIZE && exists l: Layout :: l.Fits(|f.payload|) && l.Render(f) == r
  }

  ghost predicate AllLaidOut(rs: seq<seq<byte>>, fs: seq<Frame>)
  {
    |rs| == |fs| && forall k :: 0 <= k < |fs| ==> LaidOut(rs[k], fs[k])
  }

  /** The first receives are the `rs`, each whole, in order. */
  ghost predicate CutAtFrames(ios: seq<Io>, rs: seq<seq<byte>>)
  {
    |rs| <= |ios| && forall k :: 0 <= k < |rs| ==> FirstRecv(ios[k]) == rs[k]
  }

  ghost predicate NoneShorter(ios: seq<Io>, rs: seq<seq<byte>>)
  {
    |rs| <= |ios| && forall k :: 0 <= k < |rs| ==> |rs[k]| <= |FirstRecv(ios[k])|
  }

  lemma LaidOutParses(r: seq<byte>, f: Frame)
    requires LaidOut(r, f)
    ensures Parse(r) == Some(Parsed(f, |r|))
  {
    hide Parse, Layout.Render;
    ParseIffWireFormat(r, f, |r|);
    assert r[..|r|] == r;
  }

  lemma BoundariesGiveFrames(ios: seq<Io>, rs: seq<seq<byte>>, fs: seq<Frame>, maxPayload: int)
    requires AllLaidOut(rs, fs) && CutAtFrames(ios, rs) && OpenUntilLast(fs, maxPayload)
    requires Flat(Received(ios)) == Flat(rs)
    ensures GivesFrames(ios, fs, maxPayload)
  {
    hide Parse, LaidOut, KeepsOpen, FirstRecv, Flat;
    forall k | 0 <= k < |fs| ensures Gives(ios[k], fs[k]) {
      LaidOutParses(rs[k], fs[k]);
    }
    CutsAgree(Received(ios), rs);
    if |fs| < |ios| {
      assert Received(ios)[|rs|] in Received(ios)[|rs|..];
      NoFrameInNothing();
    }
  }

  /**
   A stream of frames in any layouts: it is read as the frames that were sent, no receive shorter
   than its frame, if and only if it arrives cut at the frame boundaries and no frame before the last
   ends the connection.
   */
  lemma ReadAsLaidOut(p: Option<Partial>, ios: seq<Io>, rs: seq<seq<byte>>, fs: seq<Frame>, maxPayload: int)
    requires AllLaidOut(rs, fs) && Flat(Received(ios)) == Flat(rs)
    ensures FramesFrom(Open(p), ios, maxPayload) == fs && NoneShorter(ios, rs)
       <==> CutAtFrames(ios, rs) && OpenUntilLast(fs, maxPayload)
  {
    hide Parse, LaidOut, KeepsOpen, FramesFrom, FirstRecv, Flat;
    FramesExactly(Open(p), ios, fs, maxPayload);
    if NoneShorter(ios, rs) {
      CutsAgree(Received(ios), rs);
      forall k | 0 <= k < |rs| ensures FirstRecv(ios[k]) == rs[k] {
        assert Received(ios)[..|rs|][k] == rs[k];
      }
    }
    if CutAtFrames(ios, rs) && OpenUntilLast(fs, maxPayload) {
      BoundariesGiveFrames(ios, rs, fs, maxPayload);
    }
  }

  // ----- what the builder emits, and the same masked

  function Encodings(fs: seq<Frame>): (rs: seq<seq<byte>>)
    ensures |rs| == |fs|
  {
    seq(|fs|, i requires 0 <= i < |fs| => Encode(fs[i]))
  }

  lemma {:induction false} EncodingsJoined(fs: seq<Frame>)
    ensures Flat(Encodings(fs)) == EncodeAll(fs)
  {
    hide Encode;
    if fs != [] {
      assert Encodings(fs)[1..] == Encodings(fs[1..]);
      EncodingsJoined(fs[1..]);
    }
  }

  /**
   A stream of built frames is read as the frames that were sent if and only if it arrives cut at the
   frame boundaries and no frame before the last ends the connection.
   */
  lemma ReadAsBuilt(p: Option<Partial>, ios: seq<Io>, fs: seq<Frame>, maxPayload: int)
    requires forall f :: f in fs ==> f.opcode < 16 && |f.payload| <= OVERSIZE
    requires Flat(Received(ios)) == EncodeAll(fs)
    ensures FramesFrom(Open(p), ios, maxPayload) == fs
       <==> CutAtFrames(ios, Encodings(fs)) && OpenUntilLast(fs, maxPayload)
  {
    hide Parse, Encode, KeepsOpen, FramesFrom, FirstRecv, Flat, OpenUntilLast, Layout.Render, Layout.Fits;
    var rs := Encodings(fs);
    EncodingsJoined(fs);
    forall k | 0 <= k < |fs| ensures LaidOut(rs[k], fs[k]) {
      assert fs[k] in fs;
      BuiltIsLaidOut(fs[k]);
    }
    ReadAsLaidOut(p, ios, rs, fs, maxPayload);
    if FramesFrom(Open(p), ios, maxPayload) == fs {
      FramesExactly(Open(p), ios, fs, maxPayload);
      forall k | 0 <= k < |rs| ensures |rs[k]| <= |FirstRecv(ios[k])| {
        assert Gives(ios[k], fs[k]) && fs[k] in fs;
        ReencodeIsShortest(FirstRecv(ios[k]));
      }
    }
  }

  lemma BuiltIsLaidOut(f: Frame)
    requires f.opcode < 16 && |f.payload| <= OVERSIZE
    ensures LaidOut(Encode(f), f)
  {
    hide Encode, Layout.Render, Layout.Fits;
    Pow256Values();
    EncodeIsMinimal(f);
  }

  /** The chunks parse, one by one, to `fs`. */
  ghost predicate ParseTo(chunks: seq<seq<byte>>, fs: seq<Frame>)
  {
    && |chunks| == |fs|
    && forall k :: 0 <= k < |fs| ==> Parse(chunks[k]).Some? && Parse(chunks[k]).value.frame == fs[k]
  }

  lemma EncodingsParse(fs: seq<Frame>)
    requires forall f :: f in fs ==> f.opcode < 16 && |f.payload| <= OVERSIZE
    ensures ParseTo(Encodings(fs), fs)
  {
    hide Parse, Encode;
    forall k | 0 <= k < |fs|
      ensures Parse(Encodings(fs)[k]).Some? && Parse(Encodings(fs)[k]).value.frame == fs[k]
    {
      assert fs[k] in fs;
      ParseEncoded(fs[k], []);
      assert Encode(fs[k]) + [] == Encode(fs[k]);
    }
  }

  /** The same for any cutting, chunks larger than a receive among them, and without a connection. */
  lemma ChunksReadAsBuilt(chunks: seq<seq<byte>>, fs: seq<Frame>)
    requires forall f :: f in fs ==> f.opcode < 16 && |f.payload| <= OVERSIZE
    requires Flat(chunks) == EncodeAll(fs)
    ensures ParseTo(chunks, fs) <==> chunks == Encodings(fs)
  {
    hide Parse, Encode, Flat, EncodeAll;
    var rs := Encodings(fs);
    EncodingsJoined(fs);
    EncodingsParse(fs);
    if ParseTo(chunks, fs) {
      forall k | 0 <= k < |rs| ensures |rs[k]| <= |chunks[k]| {
        assert fs[k] in fs;
        ReencodeIsShortest(chunks[k]);
      }
      CutsAgree(chunks, rs);
      assert chunks[..|rs|] == chunks;
    }
  }

  /** What a conforming client sends: every frame masked with a key of its own. */
  function MaskedAll(fs: seq<Frame>, keys: seq<seq<byte>>): (rs: seq<seq<byte>>)
    requires |keys| == |fs| && forall k :: 0 <= k < |fs| ==> |keys[k]| == 4
    ensures |rs| == |fs|
  {
    seq(|fs|, i requires 0 <= i < |fs| => MaskOnWire(fs[i], keys[i]))
  }

  /** The mask bit is set in each of the first `n` receives. */
  ghost predicate EachMasked(ios: seq<Io>, n: nat)
  {
    n <= |ios| && forall k :: 0 <= k < n ==> |FirstRecv(ios[k])| >= 2 && FirstRecv(ios[k])[1] >= 0x80
  }

  lemma MaskedIsLaidOut(f: Frame, key: seq<byte>)
    requires f.opcode < 16 && |f.payload| <= OVERSIZE && |key| == 4
    ensures var r := MaskOnWire(f, key);
      LaidOut(r, f) && |r| == |Encode(f)| + 4 && r[1] >= 0x80
  {
    hide Encode, Layout.Render, Layout.Fits, Mask;
    Pow256Values();
    var l := MaskOnWireIsLayout(f, key);
  }

  /** A masked frame takes four octets more than the builder would. */
  lemma MaskedIsLonger(data: seq<byte>)
    requires Parse(data).Some? && |Parse(data).value.frame.payload| <= OVERSIZE && data[1] >= 0x80
    ensures |Encode(Parse(data).value.frame)| + 4 <= |data|
  {
    hide Mask, DecodeHeader;
    var Parsed(f, used) := Parse(data).value;
    var l := ParseOnlyRendered(data);
    assert l.Render(f)[1] == data[1];
    Pow256Values();
  }

  /**
   A masked stream is read as the masked frames that were sent if and only if it arrives cut at the
   frame boundaries and no frame before the last ends the connection.
   */
  lemma ReadAsMasked(p: Option<Partial>, ios: seq<Io>, fs: seq<Frame>, keys: seq<seq<byte>>, maxPayload: int)
    requires |keys| == |fs| && forall k :: 0 <= k < |fs| ==> |keys[k]| == 4
    requires forall f :: f in fs ==> f.opcode < 16 && |f.payload| <= OVERSIZE
    requires Flat(Received(ios)) == Flat(MaskedAll(fs, keys))
    ensures FramesFrom(Open(p), ios, maxPayload) == fs && EachMasked(ios, |fs|)
       <==> CutAtFrames(ios, MaskedAll(fs, keys)) && OpenUntilLast(fs, maxPayload)
  {
    hide Parse, Encode, KeepsOpen, FramesFrom, FirstRecv, Flat, OpenUntilLast, LaidOut, MaskOnWire;
    var rs := MaskedAll(fs, keys);
    forall k | 0 <= k < |fs|
      ensures LaidOut(rs[k], fs[k]) && |rs[k]| == |Encode(fs[k])| + 4 && rs[k][1] >= 0x80
    {
      assert fs[k] in fs;
      MaskedIsLaidOut(fs[k], keys[k]);
    }
    ReadAsLaidOut(p, ios, rs, fs, maxPayload);
    if FramesFrom(Open(p), ios, maxPayload) == fs && EachMasked(ios, |fs|) {
      FramesExactly(Open(p), ios, fs, maxPayload);
      forall k | 0 <= k < |rs| ensures |rs[k]| <= |FirstRecv(ios[k])| {
        assert Gives(ios[k], fs[k]) && fs[k] in fs;
        MaskedIsLonger(FirstRecv(ios[k]));
      }
    }
  }

  /**
   The mask bit has to be asked for: the end of a key may itself read as a frame. Two empty text
   frames, the second with the key 00 00 81 00, are read as sent from a cutting inside that key.
   */
  lemma KeyReadAsFrame(p: Option<Partial>, maxPayload: int)
    requires 0 <= maxPayload
    ensures var f := Frame(true, OP_TEXT, []);
      var rs := [MaskOnWire(f, [0, 0, 0, 0]), MaskOnWire(f, [0, 0, 0x81, 0])];
      var ios := [Io(0, [rs[0] + rs[1][..4]], true), Io(0, [rs[1][4..]], true)];
      && Flat(Received(ios)) == Flat(rs)
      && FramesFrom(Open(p), ios, maxPayload) == [f, f] && !CutAtFrames(ios, rs)
  {
    hide FramesFrom, Parse;
    var f := Frame(true, OP_TEXT, []);
    var k0, k1 := [0, 0, 0, 0], [0, 0, 0x81, 0];
    var r0, r1 := MaskOnWire(f, k0), MaskOnWire(f, k1);
    EmptyText();
    MaskedParsesAlike(f, k0, r1[..4]);
    var ios := [Io(0, [r0 + r1[..4]], true), Io(0, [r1[4..]], true)];
    assert Received(ios) == [r0 + r1[..4], r1[4..]];
    FlatOfTwo(r0 + r1[..4], r1[4..]);
    FlatOfTwo(r0, r1);
    FramesExactly(Open(p), ios, [f, f], maxPayload);
  }

  lemma FlatOfTwo(a: seq<byte>, b: seq<byte>)
    ensures Flat([a, b]) == a + b
  {
    assert [a, b][1..] == [b] && Flat([b]) == b;
  }

  lemma EmptyText()
    ensures var f := Frame(true, OP_TEXT, []);
      && Encode(f) == [0x81, 0] && Parse([0x81, 0]) == Some(Parsed(f, 2))
      && MaskOnWire(f, [0, 0, 0x81, 0]) == [0x81, 0x80, 0, 0, 0x81, 0]
      && MaskOnWire(f, [0, 0, 0, 0]) == [0x81, 0x80, 0, 0, 0, 0]
  {
  }

  /** Cut at its boundaries, a stream of frames the limit allows is handled frame by frame. */
  lemma HandledAsSent(p: Option<Partial>, ios: seq<Io>, rs: seq<seq<byte>>, fs: seq<Frame>, maxPayload: int)
    requires AllLaidOut(rs, fs) && CutAtFrames(ios, rs) && |ios| == |rs|
    requires forall f :: f in fs ==> |f.payload| <= SizeT(maxPayload)
    ensures RunFrom(Open(p), ios, maxPayload) == FrameRun(Open(p), fs)
  {
    hide Layout.Render, Layout.Fits, FirstRecv, RunFrom, FrameRun;
    forall k | 0 <= k < |fs| ensures Carries(ios[k], fs[k], maxPayload) {
      assert fs[k] in fs && LaidOut(rs[k], fs[k]);
    }
    WireRun(Open(p), ios, fs, maxPayload);
  }
}
