/** What the laws of one connection say about every run of the server. */
module RunLaws {
  import opened Bytes
  import opened Frames
  import opened Http
  import opened HttpLaws
  import opened Handshake
  import opened HandshakeLaws
  import opened Connection
  import opened MessageLaws
  import opened UpgradeLaws
  import opened World
  import opened Scan
  import opened PassLaws

  /**
   In any run, however its frames are interleaved with other connections': a message sent to an
   open connection in fragments, with pings between them, draws the pongs, then one callback with
   the whole message, then one echo of the whole, and nothing else.
   */
  lemma FragmentedMessageInAnyRun(steps: seq<Step>, id: nat, before: seq<Io>, ios: seq<Io>, isText: bool,
                                  first: seq<byte>, items: seq<Item>, last: seq<byte>, maxPayload: int)
    requires InputsOf(steps, id, maxPayload) == before + ios && Life(before, maxPayload).conn.Open?
    requires var fs := Fragmented(isText, first, items, last);
      |ios| == |fs| && forall k :: 0 <= k < |fs| ==> Carries(ios[k], fs[k], maxPayload)
    ensures OutsOf(After(steps, maxPayload).trace, id)
         == Life(before, maxPayload).outs + (Pongs(items) + Deliver(first + Joined(items) + last, isText))
  {
    hide Carries, OutsOf, InputsOf, RunFrom, Encode;
    Isolation(steps, id, maxPayload);
    RunInParts(Handshaking, before, ios, maxPayload);
    FragmentedMessage(Life(before, maxPayload).conn.partial, isText, first, items, last, ios, maxPayload);
  }

  /** In any run, an open connection's message in progress is what its own frames left unfinished. */
  lemma FragmentsInAnyRun(steps: seq<Step>, fd: int, maxPayload: int)
    requires fd in After(steps, maxPayload).slots && After(steps, maxPayload).slots[fd].conn.Open?
    ensures var slot := After(steps, maxPayload).slots[fd];
      IsUnfinished(FramesOf(InputsOf(steps, slot.id, maxPayload), maxPayload), slot.conn.partial)
  {
    hide IsUnfinished, InputsOf, Life, FramesOf, FrameRun, After;
    var slot := After(steps, maxPayload).slots[fd];
    SlotsFollow(steps, maxPayload);
    var ios := InputsOf(steps, slot.id, maxPayload);
    assert Life(ios, maxPayload).conn == slot.conn;
    LifeFollowsFrames(ios, maxPayload);
    FragmentsInProgress(FramesOf(ios, maxPayload));
  }

  /**
   In any run, a receive that brings an open connection a final continuation adds to the trace the
   delivery and the echo of the message its own frames left unfinished, with that last payload, or
   nothing when they left none; no other connection is touched.
   */
  lemma FinalFragmentInAnyRun(steps: seq<Step>, fd: int, io: Io, maxPayload: int)
    requires fd in After(steps, maxPayload).slots && After(steps, maxPayload).slots[fd].conn.Open?
    requires Parse(FirstRecv(io)).Some? && Finishes(Parse(FirstRecv(io)).value.frame)
    requires |Parse(FirstRecv(io)).value.frame.payload| <= SizeT(maxPayload)
    ensures var w, w' := After(steps, maxPayload), After(steps + [Ready(fd, io)], maxPayload);
      var id, last := w.slots[fd].id, Parse(FirstRecv(io)).value.frame.payload;
      var fs := FramesOf(InputsOf(steps, id, maxPayload), maxPayload);
      && (forall i: nat :: OpenedAt(fs, i) ==>
            w'.trace == w.trace + Tag(id, fd, Deliver(MessageFrom(fs, i).data + last, MessageFrom(fs, i).isText)))
      && (!LeavesOpen(fs) ==> w'.trace == w.trace)
      && w'.slots == w.slots[fd := Slot(id, Open(None))]
  {
    hide InputsOf, Life, FramesOf, FrameRun, Parse, FirstRecv, OnFrame, Finishes, OpenedAt, MessageFrom, Deliver, Tag;
    hide After, React, LeavesOpen;
    var w, f := After(steps, maxPayload), Parse(FirstRecv(io)).value.frame;
    var Slot(id, conn) := w.slots[fd];
    var ios := InputsOf(steps, id, maxPayload);
    var fs := FramesOf(ios, maxPayload);
    SlotsFollow(steps, maxPayload);
    LifeFollowsFrames(ios, maxPayload);
    assert FrameRun(Open(None), fs).conn == conn;
    FrameStep(conn.partial, io, maxPayload);
    FinalContinuation(fs, f);
    OpenSlotReady(steps, fd, io, maxPayload);
    NoEvents(w.trace, id, fd);
  }

  /** What a receive of a connection that stays open does to the world. */
  lemma OpenSlotReady(steps: seq<Step>, fd: int, io: Io, maxPayload: int)
    requires fd in After(steps, maxPayload).slots
    requires !React(After(steps, maxPayload).slots[fd].conn, io, maxPayload).conn.Closed?
    ensures var w, w' := After(steps, maxPayload), After(steps + [Ready(fd, io)], maxPayload);
      var r := React(w.slots[fd].conn, io, maxPayload);
      && w'.trace == w.trace + Tag(w.slots[fd].id, fd, r.outs)
      && w'.slots == w.slots[fd := Slot(w.slots[fd].id, r.conn)]
  {
    hide React, Tag;
    assert (steps + [Ready(fd, io)])[..|steps|] == steps;
  }

  lemma NoEvents(trace: seq<Event>, id: nat, fd: int)
    ensures trace + Tag(id, fd, []) == trace
  {
  }

  // ----- from accept to echo

  /** A newcomer has its descriptor, and nothing has been read for it, once the round that accepts it is over. */
  lemma Newcomer(lfd: int, rounds: seq<map<int, Io>>, k: nat, maxPayload: int)
    requires lfd >= 0 && k < |rounds| && lfd in rounds[k]
    requires var w, fd := After(RunSteps(lfd, rounds[..k], maxPayload), maxPayload), rounds[k][lfd].candidate;
      fd >= 0 && fd != lfd && fd !in w.slots
    ensures var w, w' := After(RunSteps(lfd, rounds[..k], maxPayload), maxPayload),
                         After(RunSteps(lfd, rounds[..k + 1], maxPayload), maxPayload);
      var fd, id := rounds[k][lfd].candidate, |w.accepted|;
      && w'.accepted == w.accepted + [fd] && fd in w'.slots && w'.slots[fd].id == id
      && InputsOf(RunSteps(lfd, rounds[..k + 1], maxPayload), id, maxPayload) == []
  {
    hide After, InputsOf, RunSteps, React;
    var before := RunSteps(lfd, rounds[..k], maxPayload);
    var id := |After(before, maxPayload).accepted|;
    EveryRoundServes(lfd, rounds, k, maxPayload);
    Unborn(before, id, maxPayload);
    SlotsFollow(before, maxPayload);
    NobodyLostInRun(lfd, rounds[..k + 1], maxPayload);
    NewLife(maxPayload);
  }

  /** An open connection gets what a round brings it, and keeps its descriptor if that leaves it open. */
  lemma NextRound(lfd: int, rounds: seq<map<int, Io>>, k: nat, fd: int, maxPayload: int)
    requires lfd >= 0 && k < |rounds| && fd in rounds[k]
    requires fd in After(RunSteps(lfd, rounds[..k], maxPayload), maxPayload).slots
    ensures var before, after := RunSteps(lfd, rounds[..k], maxPayload), RunSteps(lfd, rounds[..k + 1], maxPayload);
      var w, w' := After(before, maxPayload), After(after, maxPayload);
      var id := w.slots[fd].id;
      && InputsOf(after, id, maxPayload) == InputsOf(before, id, maxPayload) + [rounds[k][fd]]
      && (!Life(InputsOf(after, id, maxPayload), maxPayload).conn.Closed? ==> fd in w'.slots && w'.slots[fd].id == id)
  {
    hide InputsOf, RunSteps, React, Life;
    var before := RunSteps(lfd, rounds[..k], maxPayload);
    EveryRoundServes(lfd, rounds, k, maxPayload);
    EventsOnOwnDescriptor(before, maxPayload);
    NobodyLostInRun(lfd, rounds[..k + 1], maxPayload);
  }

  lemma LifeOfTwo(a: Io, b: Io, maxPayload: int)
    ensures var r := Shake(a);
      && Life([a], maxPayload) == r
      && Life([a, b], maxPayload).outs == r.outs + React(r.conn, b, maxPayload).outs
  {
    hide React, Shake;
    NewLife(maxPayload);
    NextInput([], a, maxPayload);
    NextInput([a], b, maxPayload);
    assert [] + [a] == [a] && [a] + [b] == [a, b];
    HandshakeFirst(a, maxPayload);
  }

  lemma HandshakeFirst(a: Io, maxPayload: int)
    ensures React(Handshaking, a, maxPayload) == Shake(a)
    ensures [] + Shake(a).outs == Shake(a).outs
  {
    hide Shake;
  }

  /**
   From the first to the last: in any run, whatever came before and whatever other connections do in
   these three rounds, a client that is waiting when its descriptor is free, sends the library's own
   request, cut in any way, and then a message, draws exactly the 101 answer, `on_open`, `on_message`
   with that message, and its echo.
   */
  lemma NewClientIsEchoed(lfd: int, rounds: seq<map<int, Io>>, k: nat, host: string, port: int, path: string,
                          rest: string, isText: bool, data: seq<byte>, maxPayload: int)
    requires lfd >= 0 && |rounds| == k + 3 && lfd in rounds[k]
    requires var w, fd := After(RunSteps(lfd, rounds[..k], maxPayload), maxPayload), rounds[k][lfd].candidate;
      && fd >= 0 && fd != lfd && fd !in w.slots
      && fd in rounds[k + 1] && rounds[k + 1][fd].sendOk && Cut(rounds[k + 1][fd].chunks)
      && Chars(Flat(rounds[k + 1][fd].chunks)) == ClientRequest(host, port, path) + rest
      && fd in rounds[k + 2]
      && Carries(rounds[k + 2][fd], Frame(true, if isText then OP_TEXT else OP_BINARY, data), maxPayload)
    requires OneLine(host) && IsWord(path) && |ClientRequest(host, port, path)| <= 30721
    ensures var id := |After(RunSteps(lfd, rounds[..k], maxPayload), maxPayload).accepted|;
      OutsOf(After(RunSteps(lfd, rounds, maxPayload), maxPayload).trace, id)
      == [Send(Octets(Switching(AcceptValue("dGhlIHNhbXBsZSBub25jZQ==")))), OnOpen,
          OnMessage(data, isText), Send(Encode(Frame(true, if isText then OP_TEXT else OP_BINARY, data)))]
  {
    hide After, InputsOf, RunSteps, React, Life, Shake, Carries, Encode, ClientRequest, Switching, AcceptValue;
    hide Octets, Chars, Flat, Cut, OutsOf, OneLine, IsWord;
    var w, fd := After(RunSteps(lfd, rounds[..k], maxPayload), maxPayload), rounds[k][lfd].candidate;
    var shake, message := rounds[k + 1][fd], rounds[k + 2][fd];
    assert rounds[..k + 1 + 1] == rounds[..k + 2] && rounds[..k + 2 + 1] == rounds;
    assert [] + [shake] == [shake] && [shake] + [message] == [shake, message];
    Newcomer(lfd, rounds, k, maxPayload);
    NextRound(lfd, rounds, k + 1, fd, maxPayload);
    LifeOfTwo(shake, message, maxPayload);
    ClientOpens(host, port, path, rest, shake.chunks, shake.candidate);
    NextRound(lfd, rounds, k + 2, fd, maxPayload);
    WholeMessage(None, message, isText, data, maxPayload);
    Isolation(RunSteps(lfd, rounds, maxPayload), |w.accepted|, maxPayload);
  }
}
