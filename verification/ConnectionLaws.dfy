/** What the reference machine sends and calls back, and in which order. */
module ConnectionLaws {
  import opened Bytes
  import opened Frames
  import opened FrameLaws
  import opened Handshake
  import opened Connection

  // ----- order of callbacks

  /** A close frame: FIN and opcode 8 in the first octet. */
  predicate IsCloseFrame(o: Out)
  {
    o.Send? && o.bytes != [] && o.bytes[0] == 0x88
  }

  /** At most one of each callback around messages, and silence after a close frame. */
  ghost predicate Ordered(outs: seq<Out>)
  {
    && (forall i, j :: 0 <= i < j < |outs| && outs[i].OnOpen? ==> !outs[j].OnOpen?)
    && (forall i :: 0 <= i < |outs| - 1 ==> !outs[i].OnClose?)
    && (forall j :: 0 <= j < |outs| && outs[j].OnMessage? ==> exists i :: 0 <= i < j && outs[i].OnOpen?)
    && (forall i, j :: 0 <= i < j < |outs| && IsCloseFrame(outs[i]) ==> !outs[j].Send?)
  }

  /** Outputs of a connection that stays open: nothing that opens or closes it. */
  predicate Steady(outs: seq<Out>)
  {
    forall o :: o in outs ==> !o.OnOpen? && !o.OnClose? && !IsCloseFrame(o)
  }

  /** Outputs that end a connection: at most one farewell, then the callback. */
  predicate Farewell(outs: seq<Out>)
  {
    outs == [OnClose] || (|outs| == 2 && outs[0].Send? && outs[1] == OnClose)
  }

  lemma FirstOctet(f: Frame)
    requires f.fin && f.opcode < 16
    ensures Encode(f)[0] == 0x80 + f.opcode
  {
  }

  lemma ReplyIsNoFrame(accept: string)
    ensures Octets(Switching(accept)) != [] && Octets(Switching(accept))[0] == 0x48
  {
  }

  lemma ShakeOuts(io: Io)
    ensures var r := Shake(io);
      if r.conn.Closed? then Farewell(r.outs)
      else r.conn == Open(None) && |r.outs| == 2 && r.outs[0].Send? && !IsCloseFrame(r.outs[0]) && r.outs[1] == OnOpen
  {
    hide ReadHead, AcceptValue, Switching, Octets;
    forall accept: string
      ensures Octets(Switching(accept)) != [] && Octets(Switching(accept))[0] == 0x48
    {
      ReplyIsNoFrame(accept);
    }
  }

  lemma DataOuts(p: Option<Partial>, data: seq<byte>, maxPayload: int)
    ensures var r := OnData(p, data, maxPayload);
      if r.conn.Closed? then Farewell(r.outs) else r.conn.Open? && Steady(r.outs)
  {
    hide Encode, Parse;
    if Parse(data).Some? {
      var f := Parse(data).value.frame;
      FirstOctet(Frame(true, OP_PONG, f.payload));
      forall d: seq<byte>, b: bool ensures Steady(Deliver(d, b)) {
        FirstOctet(Frame(true, if b then OP_TEXT else OP_BINARY, d));
      }
    }
  }

  /** Outputs of a life that is open: the answer to the handshake, the callback, then a steady run. */
  predicate Live(outs: seq<Out>)
  {
    |outs| >= 2 && outs[0].Send? && !IsCloseFrame(outs[0]) && outs[1].OnOpen? && Steady(outs[2..])
  }

  ghost predicate Ended(outs: seq<Out>)
  {
    Farewell(outs) || exists k :: 2 <= k < |outs| && Live(outs[..k]) && Farewell(outs[k..])
  }

  lemma {:induction false} LifeShape(ios: seq<Io>, maxPayload: int)
    ensures var r := Life(ios, maxPayload);
      match r.conn case Handshaking => r.outs == [] case Open(_) => Live(r.outs) case Closed => Ended(r.outs)
    decreases |ios|
  {
    hide Shake, OnData, FirstRecv, Farewell, IsCloseFrame;
    if ios != [] {
      var init, io := ios[..|ios| - 1], ios[|ios| - 1];
      var before := Life(init, maxPayload);
      var r := React(before.conn, io, maxPayload);
      LifeShape(init, maxPayload);
      match before.conn {
        case Handshaking =>
          ShakeOuts(io);
          assert before.outs + r.outs == r.outs;
        case Open(p) =>
          DataOuts(p, FirstRecv(io), maxPayload);
          if r.conn.Open? {
            SteadyRun(before.outs, r.outs);
          } else {
            assert (before.outs + r.outs)[..|before.outs|] == before.outs;
            assert (before.outs + r.outs)[|before.outs|..] == r.outs;
            FarewellSpeaks(r.outs);
          }
        case Closed =>
          assert before.outs + r.outs == before.outs;
      }
    }
  }

  lemma FarewellSpeaks(outs: seq<Out>)
    ensures Farewell(outs) ==> outs != []
  {
  }

  lemma SteadyRun(outs: seq<Out>, more: seq<Out>)
    requires Live(outs) && Steady(more)
    ensures Live(outs + more)
  {
    assert (outs + more)[2..] == outs[2..] + more;
  }

  /**
   In every life `on_open` and `on_close` come at most once, `on_close` last of all, every message
   after `on_open`, and after a close frame nothing is sent.
   */
  lemma LifeIsOrdered(ios: seq<Io>, maxPayload: int)
    ensures Ordered(Life(ios, maxPayload).outs)
  {
    hide Life, Live, Farewell, Ordered;
    var outs := Life(ios, maxPayload).outs;
    LifeShape(ios, maxPayload);
    if outs == [] {
      NoOuts();
    } else if Live(outs) {
      LiveIsOrdered(outs);
    } else if k :| 2 <= k < |outs| && Live(outs[..k]) && Farewell(outs[k..]) {
      EndedIsOrdered(outs[..k], outs[k..]);
      assert outs[..k] + outs[k..] == outs;
    } else {
      FarewellIsOrdered(outs);
    }
  }

  lemma NoOuts()
    ensures Ordered([])
  {
  }

  lemma FarewellIsOrdered(outs: seq<Out>)
    requires Farewell(outs)
    ensures Ordered(outs)
  {
  }

  lemma LiveIsOrdered(outs: seq<Out>)
    requires Live(outs)
    ensures Ordered(outs)
  {
    LiveOuts(outs);
  }

  lemma EndedIsOrdered(outs: seq<Out>, last: seq<Out>)
    requires Live(outs) && Farewell(last)
    ensures Ordered(outs + last)
  {
    hide Live, IsCloseFrame;
    LiveOuts(outs);
    var all := outs + last;
    assert all[1] == outs[1];
    assert forall i :: 0 <= i < |outs| ==> all[i] == outs[i];
    assert forall i :: |outs| <= i < |all| ==> all[i] == last[i - |outs|];
  }

  lemma LiveOuts(outs: seq<Out>)
    requires Live(outs)
    ensures forall i :: 0 <= i < |outs| ==>
        !outs[i].OnClose? && !IsCloseFrame(outs[i]) && (outs[i].OnOpen? <==> i == 1)
    ensures |outs| >= 2 && forall i :: 0 <= i < |outs| && outs[i].OnMessage? ==> i >= 2
  {
    forall i | 2 <= i < |outs| ensures outs[i] in outs[2..] {
      assert outs[i] == outs[2..][i - 2];
    }
  }
}
