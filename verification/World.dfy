/**
 The server as the sum of its connections: descriptors hold slots, a slot holds one run of the
 reference machine. Every event carries the number of the connection it belongs to, so that
 lives on the same descriptor stay apart.
 */
module World {
  import opened Connection
  import opened ConnectionLaws

  /** A readiness the server acts on: a socket accepted as descriptor `fd`, or input for `fd`. */
  datatype Step = Accept(fd: int) | Ready(fd: int, io: Io)

  /** Connection number `id` (counted by acceptance) and how far it has got. */
  datatype Slot = Slot(id: nat, conn: Conn)

  datatype Event = Event(id: nat, fd: int, out: Out)

  datatype World = World(slots: map<int, Slot>, accepted: seq<int>, trace: seq<Event>)

  const EMPTY := World(map[], [], [])

  function Tag(id: nat, fd: int, outs: seq<Out>): (es: seq<Event>)
    ensures |es| == |outs|
  {
    seq(|outs|, i requires 0 <= i < |outs| => Event(id, fd, outs[i]))
  }

  /** One step of the server: the slot of the descriptor reacts, a closed one is dropped. */
  function Apply(w: World, s: Step, maxPayload: int): World
  {
    match s
    case Accept(fd) => World(w.slots[fd := Slot(|w.accepted|, Handshaking)], w.accepted + [fd], w.trace)
    case Ready(fd, io) =>
      if fd !in w.slots then w
      else
        var Slot(id, conn) := w.slots[fd];
        var r := React(conn, io, maxPayload);
        World(if r.conn.Closed? then w.slots - {fd} else w.slots[fd := Slot(id, r.conn)],
              w.accepted, w.trace + Tag(id, fd, r.outs))
  }

  /** The world after a run, from nothing. */
  function After(steps: seq<Step>, maxPayload: int): World
  {
    if steps == [] then EMPTY
    else Apply(After(steps[..|steps| - 1], maxPayload), steps[|steps| - 1], maxPayload)
  }

  /** The inputs a run brought to connection `id`: those for its descriptor while it held it. */
  function InputsOf(steps: seq<Step>, id: nat, maxPayload: int): seq<Io>
  {
    if steps == [] then []
    else
      var init, s := steps[..|steps| - 1], steps[|steps| - 1];
      var w := After(init, maxPayload);
      InputsOf(init, id, maxPayload) +
      if s.Ready? && s.fd in w.slots && w.slots[s.fd].id == id then [s.io] else []
  }

  /** What connection `id` did, in order. */
  function OutsOf(trace: seq<Event>, id: nat): seq<Out>
  {
    if trace == [] then []
    else
      var e := trace[|trace| - 1];
      OutsOf(trace[..|trace| - 1], id) + if e.id == id then [e.out] else []
  }

  // ----- isolation

  lemma {:induction false} OutsOfConcat(a: seq<Event>, b: seq<Event>, id: nat)
    ensures OutsOf(a + b, id) == OutsOf(a, id) + OutsOf(b, id)
    decreases |b|
  {
    if b == [] {
      assert a + b == a;
    } else {
      assert (a + b)[..|a + b| - 1] == a + b[..|b| - 1];
      OutsOfConcat(a, b[..|b| - 1], id);
    }
  }

  lemma {:induction false} OutsOfTag(id': nat, fd: int, outs: seq<Out>, id: nat)
    ensures OutsOf(Tag(id', fd, outs), id) == if id' == id then outs else []
    decreases |outs|
  {
    if outs != [] {
      var n := |outs| - 1;
      assert Tag(id', fd, outs)[..n] == Tag(id', fd, outs[..n]);
      OutsOfTag(id', fd, outs[..n], id);
    }
  }

  /** What is true of a slot: it has its number to itself and is where its own, unfinished life has led. */
  ghost predicate SlotsFollowLives(w: World, steps: seq<Step>, maxPayload: int)
  {
    && (forall fd :: fd in w.slots ==>
          && w.slots[fd].id < |w.accepted| && !w.slots[fd].conn.Closed?
          && w.slots[fd].conn == Life(InputsOf(steps, w.slots[fd].id, maxPayload), maxPayload).conn)
    && (forall fd, fd' :: fd in w.slots && fd' in w.slots && fd != fd' ==> w.slots[fd].id != w.slots[fd'].id)
  }

  /** Inputs grow by what the last step brings the connection. */
  lemma InputsGrow(steps: seq<Step>, id: nat, maxPayload: int)
    requires steps != []
    ensures var init, s := steps[..|steps| - 1], steps[|steps| - 1];
      var w := After(init, maxPayload);
      InputsOf(steps, id, maxPayload) ==
        if s.Ready? && s.fd in w.slots && w.slots[s.fd].id == id
        then InputsOf(init, id, maxPayload) + [s.io] else InputsOf(init, id, maxPayload)
  {
    var before := InputsOf(steps[..|steps| - 1], id, maxPayload);
    assert before + [] == before;
  }

  lemma {:induction false} Unborn(steps: seq<Step>, id: nat, maxPayload: int)
    requires |After(steps, maxPayload).accepted| <= id
    ensures InputsOf(steps, id, maxPayload) == []
    decreases |steps|
  {
    hide React, Tag;
    if steps != [] {
      Unborn(steps[..|steps| - 1], id, maxPayload);
      SlotsFollow(steps[..|steps| - 1], maxPayload);
      InputsGrow(steps, id, maxPayload);
    }
  }

  lemma {:induction false} SlotsFollow(steps: seq<Step>, maxPayload: int)
    ensures SlotsFollowLives(After(steps, maxPayload), steps, maxPayload)
    decreases |steps|
  {
    hide React, Tag, InputsOf, Life;
    if steps != [] {
      var init, s := steps[..|steps| - 1], steps[|steps| - 1];
      var w := After(init, maxPayload);
      SlotsFollow(init, maxPayload);
      forall id: nat { InputsGrow(steps, id, maxPayload); }
      if s.Accept? {
        Unborn(init, |w.accepted|, maxPayload);
        NewLife(maxPayload);
      } else if s.fd in w.slots {
        var id := w.slots[s.fd].id;
        NextInput(InputsOf(init, id, maxPayload), s.io, maxPayload);
      }
    }
  }

  lemma NewLife(maxPayload: int)
    ensures Life([], maxPayload) == Reaction(Handshaking, [])
  {
  }

  lemma NextInput(ios: seq<Io>, io: Io, maxPayload: int)
    ensures var r, r' := Life(ios, maxPayload), Life(ios + [io], maxPayload);
      var x := React(r.conn, io, maxPayload); r'.conn == x.conn && r'.outs == r.outs + x.outs
  {
    hide React;
    assert (ios + [io])[..|ios|] == ios;
  }

  /**
   In every run, whatever the interleaving and however descriptors are reused, each connection does
   exactly what the reference machine does on that connection's own inputs.
   */
  lemma {:induction false} Isolation(steps: seq<Step>, id: nat, maxPayload: int)
    ensures OutsOf(After(steps, maxPayload).trace, id) == Life(InputsOf(steps, id, maxPayload), maxPayload).outs
    decreases |steps|
  {
    hide React;
    if steps != [] {
      var init, s := steps[..|steps| - 1], steps[|steps| - 1];
      var w := After(init, maxPayload);
      Isolation(init, id, maxPayload);
      InputsGrow(steps, id, maxPayload);
      if s.Ready? && s.fd in w.slots {
        var Slot(id', conn) := w.slots[s.fd];
        var r := React(conn, s.io, maxPayload);
        OutsOfConcat(w.trace, Tag(id', s.fd, r.outs), id);
        OutsOfTag(id', s.fd, r.outs, id);
        SlotsFollow(init, maxPayload);
        if id' == id {
          NextInput(InputsOf(init, id, maxPayload), s.io, maxPayload);
        } else {
          assert OutsOf(w.trace, id) + [] == OutsOf(w.trace, id);
        }
      }
    }
  }

  /** Every event is on the descriptor its connection was accepted as. */
  lemma {:induction false} EventsOnOwnDescriptor(steps: seq<Step>, maxPayload: int)
    ensures var w := After(steps, maxPayload);
      && (forall fd :: fd in w.slots ==> w.slots[fd].id < |w.accepted| && w.accepted[w.slots[fd].id] == fd)
      && (forall e :: e in w.trace ==> e.id < |w.accepted| && w.accepted[e.id] == e.fd)
    decreases |steps|
  {
    hide React;
    if steps != [] {
      var init, s := steps[..|steps| - 1], steps[|steps| - 1];
      var w, w' := After(init, maxPayload), After(steps, maxPayload);
      EventsOnOwnDescriptor(init, maxPayload);
      forall i | 0 <= i < |w'.trace| ensures var e := w'.trace[i]; e.id < |w'.accepted| && w'.accepted[e.id] == e.fd {
        assert w'.trace[i] in w.trace || i >= |w.trace|;
      }
    }
  }

  /** In every run the outputs of every connection come in the right order. */
  lemma EveryLifeIsOrdered(steps: seq<Step>, id: nat, maxPayload: int)
    ensures Ordered(OutsOf(After(steps, maxPayload).trace, id))
  {
    Isolation(steps, id, maxPayload);
    LifeIsOrdered(InputsOf(steps, id, maxPayload), maxPayload);
  }
}
