/**
 The server of src/server_impl.cpp: its tables, and the loop that updates them, proved to be the
 world of independent connections.
 */
module Server {
  import opened Bytes
  import opened Frames
  import opened Http
  import opened Handshake
  import opened Connection
  import opened ConnectionLaws
  import opened MessageLaws
  import opened RunLaws
  import opened World
  import opened Scan
  import opened PassLaws

  /** The part of a reaction that comes before clean-up. */
  function BeforeCleanup(r: Reaction): seq<Out>
  {
    if r.conn.Closed? && r.outs != [] then r.outs[..|r.outs| - 1] else r.outs
  }

  class WebSocketServer {
    const lfd: int
    const maxPayload: int
    var fdmax: int
    var master: set<int>
    var handshaken: map<int, bool>
    var fragBuffer: map<int, seq<byte>>
    var fragOpcode: map<int, byte>

    /** What the server has acted on, the world that makes, and everything it has done. */
    ghost var steps: seq<Step>
    ghost var world: World
    ghost var trace: seq<Event>

    /** How the five tables hang together. */
    ghost predicate Tables()
      reads this
    {
      && master == {lfd} + handshaken.Keys && lfd !in handshaken
      && (forall fd :: fd in master ==> 0 <= fd <= fdmax)
      && fragOpcode.Keys <= fragBuffer.Keys
      && (forall fd :: fd in fragBuffer ==> fd in handshaken && handshaken[fd])
      && (forall fd :: fd in fragOpcode ==> fragOpcode[fd] == OP_TEXT || fragOpcode[fd] == OP_BINARY)
    }

    /** The two fragment tables read as one message in progress. */
    ghost function PartialAt(fd: int): Option<Partial>
      reads this`fragBuffer, this`fragOpcode
    {
      if fd in fragOpcode && fd in fragBuffer then Some(Partial(fragOpcode[fd] == OP_TEXT, fragBuffer[fd])) else None
    }

    /** The tables read as the state of one connection. */
    ghost function ConnAt(fd: int): Conn
      reads this`handshaken, this`fragBuffer, this`fragOpcode
      requires fd in handshaken
    {
      if handshaken[fd] then Open(PartialAt(fd)) else Handshaking
    }

    ghost predicate Agrees()
      reads this
    {
      world.slots.Keys == handshaken.Keys && forall fd :: fd in handshaken ==> world.slots[fd].conn == ConnAt(fd)
    }

    ghost predicate Valid()
      reads this
    {
      && Tables() && Agrees()
      && world == After(steps, maxPayload) && trace == world.trace && fdmax == Highest(lfd, world.accepted)
    }

    /** The server once it listens on descriptor `lfd`. */
    constructor (lfd: int, maxPayload: int)
      requires lfd >= 0
      ensures Valid() && steps == [] && this.lfd == lfd && this.maxPayload == maxPayload
    {
      this.lfd, this.maxPayload := lfd, maxPayload;
      master, fdmax := {lfd}, lfd;
      handshaken, fragBuffer, fragOpcode := map[], map[], map[];
      steps, world, trace := [], EMPTY, [];
    }

    /** Records what connection `fd` does to the outside. */
    ghost method Emit(fd: int, out: Out)
      requires fd in world.slots
      modifies this`trace
      ensures trace == old(trace) + Tag(world.slots[fd].id, fd, [out])
    {
      trace := trace + [Event(world.slots[fd].id, fd, out)];
    }

    ghost method Log(s: Step)
      requires world == After(steps, maxPayload)
      modifies this`steps, this`world
      ensures steps == old(steps) + [s] && world == After(steps, maxPayload)
      ensures world == Apply(old(world), s, maxPayload)
    {
      assert (steps + [s])[..|steps|] == steps;
      steps := steps + [s];
      world := Apply(world, s, maxPayload);
    }

    method AcceptClient(cfd: int)
      requires Valid() && cfd >= 0 && cfd !in master
      modifies this`master, this`fdmax, this`handshaken, this`steps, this`world
      ensures Valid() && steps == old(steps) + [Accept(cfd)] && fdmax >= old(fdmax)
      ensures world == Apply(old(world), Accept(cfd), maxPayload)
      ensures old(handshaken.Keys) <= handshaken.Keys
    {
      hide React, After, PartialAt, Highest;
      master := master + {cfd};
      OneMore(world.accepted, cfd, lfd);
      if cfd > fdmax { fdmax := cfd; }
      handshaken := handshaken[cfd := false];
      Log(Accept(cfd));
    }

    method CleanupClient(fd: int)
      requires Tables() && fd in handshaken && fd in world.slots
      modifies this`master, this`handshaken, this`fragBuffer, this`fragOpcode, this`trace
      ensures Tables() && handshaken == old(handshaken) - {fd}
      ensures forall g :: g in handshaken ==> ConnAt(g) == old(ConnAt(g))
      ensures trace == old(trace) + Tag(world.slots[fd].id, fd, [OnClose])
    {
      master := master - {fd};
      handshaken := handshaken - {fd};
      fragBuffer := fragBuffer - {fd};
      fragOpcode := fragOpcode - {fd};
      Emit(fd, OnClose);
    }

    method PerformHandshake(fd: int, io: Io) returns (ok: bool)
      requires fd in world.slots
      modifies this`trace
      ensures var r := Shake(io);
        && (ok <==> r.conn == Open(None))
        && trace == old(trace) + Tag(world.slots[fd].id, fd, if ok then r.outs[..1] else BeforeCleanup(r))
    {
      hide Switching, AcceptValue, ReadHead, ParseRequest, Lower;
      var raw := ReadRequest(io.chunks);
      if raw.None? { return false; }
      var req := ParseHttpRequest(raw.value);
      if req.None? { return false; }
      var verb := Lc(req.value.verb);
      var version := Lc(req.value.version);
      if verb != "get" || version != "http/1.1" { return false; }
      if KEY_HEADER !in req.value.headers { return false; }
      var accept := Handshake.Accept(req.value.headers[KEY_HEADER]);
      var resp := Octets(Switching(accept));
      Emit(fd, Send(resp));
      return io.sendOk;
    }

    /** The callback with a whole message, then its echo. */
    method Reply(fd: int, data: seq<byte>, isText: bool)
      requires fd in world.slots
      modifies this`trace
      ensures trace == old(trace) + Tag(world.slots[fd].id, fd, Deliver(data, isText))
    {
      hide Encode;
      var out;
      Emit(fd, OnMessage(data, isText));
      if isText { out := BuildText(data); } else { out := BuildBinary(data); }
      Emit(fd, Send(out));
    }

    /** A text or binary frame: a whole message, or the opening of one. */
    method OnDataFrame(fd: int, f: Frame)
      requires Tables() && fd in handshaken && handshaken[fd] && fd in world.slots
      requires f.opcode == OP_TEXT || f.opcode == OP_BINARY
      modifies this`fragBuffer, this`fragOpcode, this`trace
      ensures Tables()
      ensures forall g :: g != fd ==> PartialAt(g) == old(PartialAt(g))
      ensures var r := OnFrame(old(PartialAt(fd)), f);
        r.conn == Open(PartialAt(fd)) && trace == old(trace) + Tag(world.slots[fd].id, fd, r.outs)
    {
      hide Tag, Deliver;
      if f.fin {
        Reply(fd, f.payload, f.opcode == OP_TEXT);
      } else {
        fragBuffer := fragBuffer[fd := f.payload];
        fragOpcode := fragOpcode[fd := f.opcode];
        NoTag(trace, world.slots[fd].id, fd);
      }
    }

    /** A continuation; `[fd]` makes an entry where there is none. */
    method OnContinuation(fd: int, f: Frame)
      requires Tables() && fd in handshaken && handshaken[fd] && fd in world.slots
      requires f.opcode == OP_CONT
      modifies this`fragBuffer, this`fragOpcode, this`trace
      ensures Tables()
      ensures forall g :: g != fd ==> PartialAt(g) == old(PartialAt(g))
      ensures var r := OnFrame(old(PartialAt(fd)), f);
        r.conn == Open(PartialAt(fd)) && trace == old(trace) + Tag(world.slots[fd].id, fd, r.outs)
    {
      hide Tag, Deliver;
      NoTag(trace, world.slots[fd].id, fd);
      var bufv := if fd in fragBuffer then fragBuffer[fd] else [];
      bufv := bufv + f.payload;
      fragBuffer := fragBuffer[fd := bufv];
      if f.fin {
        var baseop := if fd in fragOpcode then fragOpcode[fd] else 0;
        if baseop == OP_TEXT {
          Reply(fd, bufv, true);
        } else if baseop == OP_BINARY {
          Reply(fd, bufv, false);
        }
        fragBuffer := fragBuffer[fd := []];
        fragOpcode := fragOpcode - {fd};
      }
    }

    /** Sends a close frame; the caller cleans up. */
    method SendClose(fd: int, code: nat, reason: string)
      requires fd in world.slots
      modifies this`trace
      ensures trace == old(trace) + Tag(world.slots[fd].id, fd, BeforeCleanup(Goodbye(code, reason)))
    {
      GoodbyeOuts(code, reason);
      var out := BuildClose(code, Octets(reason));
      Emit(fd, Send(out));
    }

    method HandleFrame(fd: int, io: Io) returns (ok: bool)
      requires Tables() && fd in handshaken && handshaken[fd] && fd in world.slots
      modifies this`fragBuffer, this`fragOpcode, this`trace
      ensures Tables()
      ensures forall g :: g != fd ==> PartialAt(g) == old(PartialAt(g))
      ensures var r := OnData(old(PartialAt(fd)), FirstRecv(io), maxPayload);
        && (if ok then r.conn == Open(PartialAt(fd)) else r.conn == Closed)
        && trace == old(trace) + Tag(world.slots[fd].id, fd, BeforeCleanup(r))
    {
      hide Parse, CloseWith, Tag, BeforeCleanup;
      var buf := FirstRecv(io);
      var n := |buf|;
      ghost var r := OnData(PartialAt(fd), buf, maxPayload);
      OutsBeforeCleanup(r);
      if n <= 0 {
        NoTag(trace, world.slots[fd].id, fd);
        return false;
      }
      var parsed, f, used := ParseFrame(buf);
      if !parsed {
        SendClose(fd, 1002, "protocol error");
        return false;
      }
      if |f.payload| > SizeT(maxPayload) {
        SendClose(fd, 1009, "message too big");
        return false;
      }
      if f.opcode == OP_TEXT || f.opcode == OP_BINARY {
        OnDataFrame(fd, f);
      } else if f.opcode == OP_CONT {
        OnContinuation(fd, f);
      } else if f.opcode == OP_PING {
        var out := BuildPong(f);
        Emit(fd, Send(out));
      } else if f.opcode == OP_CLOSE {
        SendClose(fd, 1000, "normal closure");
        return false;
      } else {
        SendClose(fd, 1002, "protocol error");
        return false;
      }
      return true;
    }

    /** The handshake branch of the scan: the descriptor becomes a connection or is cleaned up. */
    method ServeHandshake(fd: int, io: Io)
      requires Valid() && fd in handshaken && !handshaken[fd]
      modifies this`master, this`handshaken, this`fragBuffer, this`fragOpcode, this`trace
      ensures Reacted(fd, React(old(world).slots[fd].conn, io, maxPayload))
      ensures handshaken.Keys <= old(handshaken.Keys)
      ensures forall g :: g != fd ==>
          (g in handshaken <==> g in old(handshaken)) && (g in handshaken ==> ConnAt(g) == old(ConnAt(g)))
      ensures trace == old(trace) + Tag(world.slots[fd].id, fd, React(old(world).slots[fd].conn, io, maxPayload).outs)
    {
      hide Shake, Tag, BeforeCleanup, OnData, FirstRecv, After, Highest;
      ghost var id, r := world.slots[fd].id, Shake(io);
      ReactionShape(Handshaking, io, maxPayload);
      var ok := PerformHandshake(fd, io);
      if !ok {
        CleanupClient(fd);
        JoinTags(old(trace), id, fd, BeforeCleanup(r), [OnClose]);
      } else {
        handshaken := handshaken[fd := true];
        Emit(fd, OnOpen);
        JoinTags(old(trace), id, fd, r.outs[..1], [OnOpen]);
      }
    }

    /** The frame branch of the scan. */
    method ServeFrame(fd: int, io: Io)
      requires Valid() && fd in handshaken && handshaken[fd]
      modifies this`master, this`handshaken, this`fragBuffer, this`fragOpcode, this`trace
      ensures Reacted(fd, React(old(world).slots[fd].conn, io, maxPayload))
      ensures handshaken.Keys <= old(handshaken.Keys)
      ensures forall g :: g != fd ==>
          (g in handshaken <==> g in old(handshaken)) && (g in handshaken ==> ConnAt(g) == old(ConnAt(g)))
      ensures trace == old(trace) + Tag(world.slots[fd].id, fd, React(old(world).slots[fd].conn, io, maxPayload).outs)
    {
      hide OnData, FirstRecv, Tag;
      ghost var id, r := world.slots[fd].id, React(world.slots[fd].conn, io, maxPayload);
      ReactionShape(world.slots[fd].conn, io, maxPayload);
      var ok := HandleFrame(fd, io);
      if !ok {
        CleanupClient(fd);
        JoinTags(old(trace), id, fd, BeforeCleanup(r), [OnClose]);
      }
    }

    /** The tables show what reaction `r` made of descriptor `fd`. */
    ghost predicate Reacted(fd: int, r: Reaction)
      reads this
    {
      && Tables()
      && (if r.conn.Closed? then fd !in handshaken else fd in handshaken && ConnAt(fd) == r.conn)
    }

    /** A client descriptor is ready: shake hands or take a frame, and clean up when either says so. */
    method ServeClient(fd: int, io: Io)
      requires Valid() && fd in handshaken
      modifies this`master, this`handshaken, this`fragBuffer, this`fragOpcode, this`trace, this`steps, this`world
      ensures Valid() && steps == old(steps) + [Ready(fd, io)]
      ensures world == Apply(old(world), Ready(fd, io), maxPayload)
      ensures old(handshaken.Keys) - {fd} <= handshaken.Keys
    {
      hide React, Tag, After, PartialAt;
      if !handshaken[fd] {
        ServeHandshake(fd, io);
      } else {
        ServeFrame(fd, io);
      }
      Log(Ready(fd, io));
      forall g ensures g in world.slots <==> g in handshaken {
        assert g in old(world).slots <==> g in old(handshaken);
      }
    }

    /**
     One round of `run`: `input` says which descriptors have something, `select` reports those of
     them that are waited for, and the scan acts on that snapshot while the tables change under it.
     */
    method ScanRound(input: map<int, Io>)
      requires Valid()
      modifies this
      ensures Valid()
      ensures var ready := Snapshot(old(world), lfd, input);
        steps == old(steps) + Pass(old(world), lfd, 0, old(fdmax), ready, input, maxPayload)
    {
      hide Apply, After;
      var readfds := set fd | fd in input && fd in master;
      assert readfds == Snapshot(world, lfd, input);
      ghost var top := fdmax;
      var fd := 0;
      while fd <= fdmax
        invariant Valid() && top <= fdmax
        invariant forall g :: g in readfds ==> 0 <= g <= top
        invariant forall g :: g in readfds && fd <= g && g != lfd ==> g in handshaken
        invariant steps + Pass(world, lfd, fd, top, readfds, input, maxPayload)
               == old(steps) + Pass(old(world), lfd, 0, top, readfds, input, maxPayload)
        decreases if fd <= lfd then lfd - fd + 1 else 0, fdmax - fd
      {
        ghost var before, w := steps, world;
        if fd in readfds {
          if fd == lfd {
            var cfd := AcceptCall(input[fd].candidate, master);
            if cfd < 0 {
              assert ActionAt(w, lfd, fd, input[fd]) == None;
              fd := fd + 1;
              continue;
            }
            AcceptClient(cfd);
            assert ActionAt(w, lfd, fd, input[fd]) == Some(Accept(cfd));
            StepTaken(before, Accept(cfd), Pass(world, lfd, fd + 1, top, readfds, input, maxPayload));
          } else {
            ServeClient(fd, input[fd]);
            assert ActionAt(w, lfd, fd, input[fd]) == Some(Ready(fd, input[fd]));
            StepTaken(before, Ready(fd, input[fd]), Pass(world, lfd, fd + 1, top, readfds, input, maxPayload));
          }
        } else {
          assert Pass(w, lfd, fd, top, readfds, input, maxPayload)
              == Pass(w, lfd, fd + 1, top, readfds, input, maxPayload);
        }
        fd := fd + 1;
      }
    }

    /**
     The two fragment tables at any step boundary: there is an opcode exactly when some frame of the
     connection opened a message that is not finished, and then opcode and buffer are that message.
     */
    lemma FragmentTables(fd: int)
      requires Valid() && fd in handshaken && handshaken[fd]
      ensures var fs := FramesOf(InputsOf(steps, world.slots[fd].id, maxPayload), maxPayload);
        && (fd in fragOpcode <==> LeavesOpen(fs))
        && (forall i: nat :: OpenedAt(fs, i) ==>
            fragOpcode[fd] == fs[i].opcode && fragBuffer[fd] == MessageFrom(fs, i).data)
    {
      hide InputsOf, FramesOf, After, Highest;
      FragmentsInAnyRun(steps, fd, maxPayload);
    }

    /** The server's life: one round after another until it is stopped or `select` fails. */
    method Run(rounds: seq<map<int, Io>>)
      requires Valid() && steps == []
      modifies this
      ensures Valid() && steps == RunSteps(lfd, rounds, maxPayload)
      ensures forall id: nat :: OutsOf(trace, id) == Life(InputsOf(steps, id, maxPayload), maxPayload).outs
      ensures forall id: nat :: Ordered(OutsOf(trace, id))
      ensures forall k: nat :: k < |rounds| ==>
          Served(lfd, RunSteps(lfd, rounds[..k], maxPayload), RunSteps(lfd, rounds[..k + 1], maxPayload), rounds[k],
                 maxPayload)
    {
      hide Pass, Snapshot, Highest, OutsOf, InputsOf, Life, Ordered, Served;
      for i := 0 to |rounds|
        invariant Valid() && steps == RunSteps(lfd, rounds[..i], maxPayload)
      {
        ScanRound(rounds[i]);
        assert rounds[..i + 1][..i] == rounds[..i];
      }
      assert rounds[..|rounds|] == rounds;
      forall id: nat
        ensures OutsOf(trace, id) == Life(InputsOf(steps, id, maxPayload), maxPayload).outs
        ensures Ordered(OutsOf(trace, id))
      {
        Isolation(steps, id, maxPayload);
        EveryLifeIsOrdered(steps, id, maxPayload);
      }
      forall k: nat | k < |rounds| { EveryRoundServes(lfd, rounds, k, maxPayload); }
    }
  }

  lemma StepTaken(steps: seq<Step>, s: Step, rest: seq<Step>)
    ensures steps + ([s] + rest) == steps + [s] + rest
  {
  }

  lemma JoinTags(t: seq<Event>, id: nat, fd: int, a: seq<Out>, b: seq<Out>)
    ensures t + Tag(id, fd, a) + Tag(id, fd, b) == t + Tag(id, fd, a + b)
  {
  }

  /** A reaction that closes ends in `OnClose`; one that opens ends in `OnOpen`. */
  lemma ReactionShape(c: Conn, io: Io, maxPayload: int)
    ensures var r := React(c, io, maxPayload);
      && (r.conn.Closed? && !c.Closed? ==> BeforeCleanup(r) + [OnClose] == r.outs)
      && r.conn != Handshaking
      && (c.Handshaking? && r.conn.Open? ==> r.conn == Open(None) && r.outs[..1] + [OnOpen] == r.outs)
  {
    hide Shake, OnData, FirstRecv, Farewell, Steady, IsCloseFrame, BeforeCleanup;
    var r := React(c, io, maxPayload);
    if c.Handshaking? {
      ShakeOuts(io);
      if r.conn.Open? { assert r.outs[..1] + [OnOpen] == r.outs; }
    } else if c.Open? {
      DataOuts(c.partial, FirstRecv(io), maxPayload);
    }
    if r.conn.Closed? && !c.Closed? { FarewellEnds(r); }
  }

  lemma FarewellEnds(r: Reaction)
    requires r.conn.Closed? && Farewell(r.outs)
    ensures BeforeCleanup(r) + [OnClose] == r.outs
  {
  }

  lemma OutsBeforeCleanup(r: Reaction)
    ensures r == Reaction(Closed, [OnClose]) ==> BeforeCleanup(r) == []
    ensures r.conn.Open? ==> BeforeCleanup(r) == r.outs
  {
  }

  lemma GoodbyeOuts(code: nat, reason: string)
    ensures BeforeCleanup(Goodbye(code, reason)) == [Send(CloseWith(code, reason))]
  {
    hide CloseWith;
  }

  lemma NoTag(t: seq<Event>, id: nat, fd: int)
    ensures t + Tag(id, fd, []) == t
  {
  }
}
