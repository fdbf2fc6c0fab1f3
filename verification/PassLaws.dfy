/**
 What a pass of the select loop does not miss: every connection with something waiting gets exactly
 that, every other one gets nothing, and a waiting client is accepted.
 */
module PassLaws {
  import opened Connection
  import opened World
  import opened Scan

  // ----- the steps of a pass

  /** Every ready client descriptor is served with what waits there. */
  lemma {:induction false} EveryReadyIsServed(w: World, lfd: int, fd: int, top: int, ready: set<int>,
                                              input: map<int, Io>, maxPayload: int, g: int)
    requires ready <= input.Keys && g in ready && g != lfd && fd <= g <= top
    ensures Ready(g, input[g]) in Pass(w, lfd, fd, top, ready, input, maxPayload)
    decreases top - fd
  {
    hide Apply;
    if fd !in ready || ActionAt(w, lfd, fd, input[fd]).None? {
      EveryReadyIsServed(w, lfd, fd + 1, top, ready, input, maxPayload, g);
    } else if fd < g {
      var s := ActionAt(w, lfd, fd, input[fd]).value;
      EveryReadyIsServed(Apply(w, s, maxPayload), lfd, fd + 1, top, ready, input, maxPayload, g);
    }
  }

  /** Clients are served in ascending order, so none twice, each with what waited for it. */
  lemma {:induction false} ServedInOrder(w: World, lfd: int, fd: int, top: int, ready: set<int>,
                                         input: map<int, Io>, maxPayload: int)
    requires ready <= input.Keys
    ensures var ss := Pass(w, lfd, fd, top, ready, input, maxPayload);
      && (forall i, j :: 0 <= i < j < |ss| && ss[i].Ready? && ss[j].Ready? ==> ss[i].fd < ss[j].fd)
      && (forall s :: s in ss && s.Ready? ==> fd <= s.fd <= top && s.fd in ready && s.fd != lfd && s.io == input[s.fd])
    decreases top - fd
  {
    hide Apply;
    if fd <= top {
      if fd !in ready || ActionAt(w, lfd, fd, input[fd]).None? {
        ServedInOrder(w, lfd, fd + 1, top, ready, input, maxPayload);
      } else {
        var s := ActionAt(w, lfd, fd, input[fd]).value;
        var w' := Apply(w, s, maxPayload);
        var rest := Pass(w', lfd, fd + 1, top, ready, input, maxPayload);
        ServedInOrder(w', lfd, fd + 1, top, ready, input, maxPayload);
        assert forall i :: 0 <= i < |rest| ==> rest[i] in rest;
      }
    }
  }

  /** A waiting client is accepted when its descriptor is free. */
  lemma {:induction false} WaitingIsAccepted(w: World, lfd: int, fd: int, top: int, ready: set<int>,
                                             input: map<int, Io>, maxPayload: int)
    requires ready <= input.Keys && lfd in ready && fd <= lfd <= top
    requires input[lfd].candidate >= 0 && input[lfd].candidate != lfd && input[lfd].candidate !in w.slots
    ensures Accept(input[lfd].candidate) in Pass(w, lfd, fd, top, ready, input, maxPayload)
    decreases top - fd
  {
    hide React;
    if fd !in ready {
      WaitingIsAccepted(w, lfd, fd + 1, top, ready, input, maxPayload);
    } else if fd < lfd {
      WaitingIsAccepted(Apply(w, Ready(fd, input[fd]), maxPayload), lfd, fd + 1, top, ready, input, maxPayload);
    }
  }

  // ----- what a pass makes of the world

  lemma AfterStep(steps: seq<Step>, s: Step, rest: seq<Step>, maxPayload: int)
    ensures After(steps + [s], maxPayload) == Apply(After(steps, maxPayload), s, maxPayload)
    ensures steps + ([s] + rest) == steps + [s] + rest
  {
    hide Apply;
    assert (steps + [s])[..|steps|] == steps;
  }

  /** Beyond the listening descriptor nobody is accepted. */
  lemma {:induction false} NobodyAccepted(steps: seq<Step>, lfd: int, fd: int, top: int, ready: set<int>,
                                          input: map<int, Io>, maxPayload: int)
    requires ready <= input.Keys && (lfd < fd || top < lfd || lfd !in ready)
    ensures var w := After(steps, maxPayload);
      After(steps + Pass(w, lfd, fd, top, ready, input, maxPayload), maxPayload).accepted == w.accepted
    decreases top - fd
  {
    hide React, After;
    var w := After(steps, maxPayload);
    if fd > top {
      assert steps + [] == steps;
    } else if fd !in ready {
      NobodyAccepted(steps, lfd, fd + 1, top, ready, input, maxPayload);
    } else {
      var s := Ready(fd, input[fd]);
      AfterStep(steps, s, Pass(Apply(w, s, maxPayload), lfd, fd + 1, top, ready, input, maxPayload), maxPayload);
      NobodyAccepted(steps + [s], lfd, fd + 1, top, ready, input, maxPayload);
    }
  }

  /**
   Whom a pass accepts: the client that waits, if the descriptor it is to have is free, which it also
   is when the pass has just closed the connection on it.
   */
  function Accepted(w: World, lfd: int, fd: int, ready: set<int>, input: map<int, Io>, maxPayload: int): seq<int>
    requires ready <= input.Keys
  {
    if lfd !in ready then []
    else
      var c := input[lfd].candidate;
      var freed := && fd <= c < lfd && c in ready && c in w.slots
                   && React(w.slots[c].conn, input[c], maxPayload).conn.Closed?;
      if c >= 0 && c != lfd && (c !in w.slots || freed) then [c] else []
  }

  lemma {:induction false} AcceptedExactly(steps: seq<Step>, lfd: int, fd: int, top: int, ready: set<int>,
                                           input: map<int, Io>, maxPayload: int)
    requires ready <= input.Keys && fd <= lfd <= top
    ensures var w := After(steps, maxPayload);
      After(steps + Pass(w, lfd, fd, top, ready, input, maxPayload), maxPayload).accepted
      == w.accepted + Accepted(w, lfd, fd, ready, input, maxPayload)
    decreases top - fd
  {
    hide React, After;
    var w := After(steps, maxPayload);
    if lfd !in ready {
      NobodyAccepted(steps, lfd, fd, top, ready, input, maxPayload);
    } else if fd !in ready {
      AcceptedExactly(steps, lfd, fd + 1, top, ready, input, maxPayload);
    } else if ActionAt(w, lfd, fd, input[fd]).None? {
      NobodyAccepted(steps, lfd, fd + 1, top, ready, input, maxPayload);
    } else {
      var s := ActionAt(w, lfd, fd, input[fd]).value;
      AfterStep(steps, s, Pass(Apply(w, s, maxPayload), lfd, fd + 1, top, ready, input, maxPayload), maxPayload);
      if fd < lfd {
        AcceptedExactly(steps + [s], lfd, fd + 1, top, ready, input, maxPayload);
      } else {
        NobodyAccepted(steps + [s], lfd, fd + 1, top, ready, input, maxPayload);
      }
    }
  }

  // ----- what a pass brings to a connection

  /** A step that is not for a connection's descriptor brings it nothing. */
  lemma NotForIt(steps: seq<Step>, s: Step, id: nat, maxPayload: int)
    requires var w := After(steps, maxPayload);
      s.Ready? && s.fd in w.slots ==> w.slots[s.fd].id != id
    ensures InputsOf(steps + [s], id, maxPayload) == InputsOf(steps, id, maxPayload)
  {
    hide After, InputsOf;
    assert (steps + [s])[..|steps|] == steps;
    InputsGrow(steps + [s], id, maxPayload);
  }

  lemma ForIt(steps: seq<Step>, s: Step, id: nat, maxPayload: int)
    requires var w := After(steps, maxPayload);
      s.Ready? && s.fd in w.slots && w.slots[s.fd].id == id
    ensures InputsOf(steps + [s], id, maxPayload) == InputsOf(steps, id, maxPayload) + [s.io]
  {
    hide After, InputsOf;
    assert (steps + [s])[..|steps|] == steps;
    InputsGrow(steps + [s], id, maxPayload);
  }

  /** What is still to be read in a pass: ready descriptors of connections, none of them `id`. */
  ghost predicate Waiting(w: World, lfd: int, fd: int, ready: set<int>)
  {
    forall h :: h in ready && fd <= h && h != lfd ==> h in w.slots
  }

  ghost predicate Absent(w: World, lfd: int, fd: int, ready: set<int>, id: nat)
  {
    forall h :: h in ready && fd <= h && h != lfd && h in w.slots ==> w.slots[h].id != id
  }

  /** Serving one descriptor leaves what waits behind it as it was. */
  lemma StillWaiting(w: World, lfd: int, fd: int, io: Io, ready: set<int>, id: nat, maxPayload: int)
    requires Waiting(w, lfd, fd, ready) && ActionAt(w, lfd, fd, io).Some?
    ensures var w' := Apply(w, ActionAt(w, lfd, fd, io).value, maxPayload);
      Waiting(w', lfd, fd + 1, ready) && (Absent(w, lfd, fd + 1, ready, id) ==> Absent(w', lfd, fd + 1, ready, id))
  {
    hide Apply;
    forall h | h in ready && fd < h && h != lfd { OtherSlots(w, lfd, fd, io, h, maxPayload); }
  }

  /** A connection that no ready descriptor holds gets nothing, one that is not there yet among them. */
  lemma {:induction false} NothingBrought(steps: seq<Step>, lfd: int, fd: int, top: int, ready: set<int>,
                                          input: map<int, Io>, maxPayload: int, id: nat)
    requires ready <= input.Keys
    requires var w := After(steps, maxPayload); Waiting(w, lfd, fd, ready) && Absent(w, lfd, fd, ready, id)
    ensures var ss := Pass(After(steps, maxPayload), lfd, fd, top, ready, input, maxPayload);
      InputsOf(steps + ss, id, maxPayload) == InputsOf(steps, id, maxPayload)
    decreases top - fd
  {
    hide Apply, After, InputsOf;
    var w := After(steps, maxPayload);
    if fd > top {
      assert steps + [] == steps;
    } else if fd !in ready || ActionAt(w, lfd, fd, input[fd]).None? {
      NothingBrought(steps, lfd, fd + 1, top, ready, input, maxPayload, id);
    } else {
      var s := ActionAt(w, lfd, fd, input[fd]).value;
      AfterStep(steps, s, Pass(Apply(w, s, maxPayload), lfd, fd + 1, top, ready, input, maxPayload), maxPayload);
      NotForIt(steps, s, id, maxPayload);
      StillWaiting(w, lfd, fd, input[fd], ready, id, maxPayload);
      NothingBrought(steps + [s], lfd, fd + 1, top, ready, input, maxPayload, id);
    }
  }

  lemma OtherHolder(steps: seq<Step>, g: int, h: int, maxPayload: int)
    requires var w := After(steps, maxPayload); g in w.slots && h in w.slots && g != h
    ensures var w := After(steps, maxPayload); w.slots[g].id != w.slots[h].id
  {
    hide After, InputsOf, Life;
    SlotsFollow(steps, maxPayload);
  }

  /** At its own descriptor a connection gets what waits there, and nothing in the rest of the pass. */
  lemma BroughtAtOwn(steps: seq<Step>, lfd: int, top: int, ready: set<int>, input: map<int, Io>,
                     maxPayload: int, g: int)
    requires ready <= input.Keys && g in After(steps, maxPayload).slots && g != lfd && g <= top
    requires Waiting(After(steps, maxPayload), lfd, g, ready)
    ensures var w := After(steps, maxPayload);
      var ss := Pass(w, lfd, g, top, ready, input, maxPayload);
      InputsOf(steps + ss, w.slots[g].id, maxPayload)
      == InputsOf(steps, w.slots[g].id, maxPayload) + if g in ready then [input[g]] else []
  {
    hide Apply, After, InputsOf;
    var w := After(steps, maxPayload);
    var id := w.slots[g].id;
    forall h | h in w.slots && h != g { OtherHolder(steps, g, h, maxPayload); }
    assert Absent(w, lfd, g + 1, ready, id);
    if g in ready {
      var s := Ready(g, input[g]);
      AfterStep(steps, s, Pass(Apply(w, s, maxPayload), lfd, g + 1, top, ready, input, maxPayload), maxPayload);
      ForIt(steps, s, id, maxPayload);
      StillWaiting(w, lfd, g, input[g], ready, id, maxPayload);
      NothingBrought(steps + [s], lfd, g + 1, top, ready, input, maxPayload, id);
    } else {
      NothingBrought(steps, lfd, g + 1, top, ready, input, maxPayload, id);
      assert InputsOf(steps, id, maxPayload) + [] == InputsOf(steps, id, maxPayload);
    }
  }

  /** A connection gets what waits at its descriptor, once, and nothing when nothing waits there. */
  lemma {:induction false} WhatIsBrought(steps: seq<Step>, lfd: int, fd: int, top: int, ready: set<int>,
                                         input: map<int, Io>, maxPayload: int, g: int)
    requires ready <= input.Keys && g in After(steps, maxPayload).slots && g != lfd && fd <= g <= top
    requires Waiting(After(steps, maxPayload), lfd, fd, ready)
    ensures var w := After(steps, maxPayload);
      var ss := Pass(w, lfd, fd, top, ready, input, maxPayload);
      InputsOf(steps + ss, w.slots[g].id, maxPayload)
      == InputsOf(steps, w.slots[g].id, maxPayload) + if g in ready then [input[g]] else []
    decreases top - fd
  {
    hide Apply, After, InputsOf;
    var w := After(steps, maxPayload);
    if fd == g {
      BroughtAtOwn(steps, lfd, top, ready, input, maxPayload, g);
    } else if fd !in ready || ActionAt(w, lfd, fd, input[fd]).None? {
      WhatIsBrought(steps, lfd, fd + 1, top, ready, input, maxPayload, g);
    } else {
      var s := ActionAt(w, lfd, fd, input[fd]).value;
      AfterStep(steps, s, Pass(Apply(w, s, maxPayload), lfd, fd + 1, top, ready, input, maxPayload), maxPayload);
      if s.Ready? && fd in w.slots { OtherHolder(steps, fd, g, maxPayload); }
      NotForIt(steps, s, w.slots[g].id, maxPayload);
      OtherSlots(w, lfd, fd, input[fd], g, maxPayload);
      StillWaiting(w, lfd, fd, input[fd], ready, 0, maxPayload);
      WhatIsBrought(steps + [s], lfd, fd + 1, top, ready, input, maxPayload, g);
    }
  }

  // ----- rounds

  /** Every open descriptor lies between zero and the bound of the scan. */
  ghost predicate InReach(w: World, lfd: int)
  {
    && 0 <= lfd <= Highest(lfd, w.accepted) && lfd !in w.slots
    && forall fd :: fd in w.slots ==> 0 <= fd <= Highest(lfd, w.accepted)
  }

  lemma InReachAfter(w: World, lfd: int, fd: int, io: Io, maxPayload: int)
    requires InReach(w, lfd) && ActionAt(w, lfd, fd, io).Some?
    ensures InReach(Apply(w, ActionAt(w, lfd, fd, io).value, maxPayload), lfd)
  {
    hide React, Highest;
    if fd == lfd { OneMore(w.accepted, io.candidate, lfd); }
  }

  lemma {:induction false} PassInReach(steps: seq<Step>, lfd: int, fd: int, top: int, ready: set<int>,
                                       input: map<int, Io>, maxPayload: int)
    requires ready <= input.Keys && InReach(After(steps, maxPayload), lfd)
    ensures var ss := Pass(After(steps, maxPayload), lfd, fd, top, ready, input, maxPayload);
      InReach(After(steps + ss, maxPayload), lfd)
    decreases top - fd
  {
    hide Apply, After, InReach;
    var w := After(steps, maxPayload);
    if fd > top {
      assert steps + [] == steps;
    } else if fd !in ready || ActionAt(w, lfd, fd, input[fd]).None? {
      PassInReach(steps, lfd, fd + 1, top, ready, input, maxPayload);
    } else {
      var s := ActionAt(w, lfd, fd, input[fd]).value;
      AfterStep(steps, s, Pass(Apply(w, s, maxPayload), lfd, fd + 1, top, ready, input, maxPayload), maxPayload);
      InReachAfter(w, lfd, fd, input[fd], maxPayload);
      PassInReach(steps + [s], lfd, fd + 1, top, ready, input, maxPayload);
    }
  }

  lemma {:induction false} RunInReach(lfd: int, rounds: seq<map<int, Io>>, maxPayload: int)
    requires lfd >= 0
    ensures InReach(After(RunSteps(lfd, rounds, maxPayload), maxPayload), lfd)
    decreases |rounds|
  {
    hide Pass;
    if rounds != [] {
      var init, input := rounds[..|rounds| - 1], rounds[|rounds| - 1];
      var before := RunSteps(lfd, init, maxPayload);
      var w := After(before, maxPayload);
      RunInReach(lfd, init, maxPayload);
      PassInReach(before, lfd, 0, Highest(lfd, w.accepted), Snapshot(w, lfd, input), input, maxPayload);
    }
  }

  /**
   What a round, from the steps `before` it to the steps `after` it, owes to whoever waits: every open
   connection gets exactly what waits at its descriptor, once, and no other connection gets anything;
   the client that waits at the listening descriptor is accepted if and only if the descriptor it is
   to have is free, or has just been freed.
   */
  ghost predicate Served(lfd: int, before: seq<Step>, after: seq<Step>, input: map<int, Io>, maxPayload: int)
  {
    var w := After(before, maxPayload);
    && before <= after
    && (forall fd :: fd in w.slots ==>
          InputsOf(after, w.slots[fd].id, maxPayload)
          == InputsOf(before, w.slots[fd].id, maxPayload) + if fd in input then [input[fd]] else [])
    && (forall id: nat :: (forall fd :: fd in w.slots ==> w.slots[fd].id != id) ==>
          InputsOf(after, id, maxPayload) == InputsOf(before, id, maxPayload))
    && After(after, maxPayload).accepted
       == w.accepted
          + if lfd !in input then []
            else
              var c := input[lfd].candidate;
              if c < 0 || c == lfd then []
              else if c !in w.slots then [c]
              else if c < lfd && c in input && React(w.slots[c].conn, input[c], maxPayload).conn.Closed? then [c]
              else []
  }

  /** Every round of a run serves whoever waits. */
  lemma EveryRoundServes(lfd: int, rounds: seq<map<int, Io>>, k: nat, maxPayload: int)
    requires lfd >= 0 && k < |rounds|
    ensures Served(lfd, RunSteps(lfd, rounds[..k], maxPayload), RunSteps(lfd, rounds[..k + 1], maxPayload),
                   rounds[k], maxPayload)
  {
    hide Pass, InputsOf, After, React, Highest;
    var before, input := RunSteps(lfd, rounds[..k], maxPayload), rounds[k];
    var w := After(before, maxPayload);
    var top, ready := Highest(lfd, w.accepted), Snapshot(w, lfd, input);
    assert rounds[..k + 1][..k] == rounds[..k];
    RunInReach(lfd, rounds[..k], maxPayload);
    AcceptedExactly(before, lfd, 0, top, ready, input, maxPayload);
    forall fd | fd in w.slots {
      WhatIsBrought(before, lfd, 0, top, ready, input, maxPayload, fd);
    }
    forall id: nat | forall fd :: fd in w.slots ==> w.slots[fd].id != id {
      NothingBrought(before, lfd, 0, top, ready, input, maxPayload, id);
    }
  }

  // ----- nobody is lost

  /** Every accepted connection whose life has not ended still has its descriptor. */
  ghost predicate NobodyLost(steps: seq<Step>, maxPayload: int)
  {
    var w := After(steps, maxPayload);
    forall id: nat :: id < |w.accepted| && !Life(InputsOf(steps, id, maxPayload), maxPayload).conn.Closed? ==>
      w.accepted[id] in w.slots && w.slots[w.accepted[id]].id == id
  }

  lemma NobodyLostAtStep(steps: seq<Step>, s: Step, maxPayload: int)
    requires NobodyLost(steps, maxPayload) && (s.Accept? ==> s.fd !in After(steps, maxPayload).slots)
    ensures NobodyLost(steps + [s], maxPayload)
  {
    hide After, InputsOf, Life, React;
    var w := After(steps, maxPayload);
    AfterStep(steps, s, [], maxPayload);
    SlotsFollow(steps, maxPayload);
    var w' := Apply(w, s, maxPayload);
    forall id: nat | id < |w'.accepted| && !Life(InputsOf(steps + [s], id, maxPayload), maxPayload).conn.Closed?
      ensures w'.accepted[id] in w'.slots && w'.slots[w'.accepted[id]].id == id
    {
      if id < |w.accepted| {
        if s.Ready? && s.fd in w.slots && w.slots[s.fd].id == id {
          ForIt(steps, s, id, maxPayload);
          NextInput(InputsOf(steps, id, maxPayload), s.io, maxPayload);
        } else {
          NotForIt(steps, s, id, maxPayload);
        }
      }
    }
  }

  lemma {:induction false} NobodyLostInPass(steps: seq<Step>, lfd: int, fd: int, top: int, ready: set<int>,
                                            input: map<int, Io>, maxPayload: int)
    requires ready <= input.Keys && NobodyLost(steps, maxPayload)
    ensures NobodyLost(steps + Pass(After(steps, maxPayload), lfd, fd, top, ready, input, maxPayload), maxPayload)
    decreases top - fd
  {
    hide Apply, After, NobodyLost;
    var w := After(steps, maxPayload);
    if fd > top {
      assert steps + [] == steps;
    } else if fd !in ready || ActionAt(w, lfd, fd, input[fd]).None? {
      NobodyLostInPass(steps, lfd, fd + 1, top, ready, input, maxPayload);
    } else {
      var s := ActionAt(w, lfd, fd, input[fd]).value;
      AfterStep(steps, s, Pass(Apply(w, s, maxPayload), lfd, fd + 1, top, ready, input, maxPayload), maxPayload);
      NobodyLostAtStep(steps, s, maxPayload);
      NobodyLostInPass(steps + [s], lfd, fd + 1, top, ready, input, maxPayload);
    }
  }

  /** In every run, a connection keeps its descriptor until its own life ends. */
  lemma {:induction false} NobodyLostInRun(lfd: int, rounds: seq<map<int, Io>>, maxPayload: int)
    ensures NobodyLost(RunSteps(lfd, rounds, maxPayload), maxPayload)
    decreases |rounds|
  {
    hide Pass, InputsOf;
    if rounds != [] {
      var init, input := rounds[..|rounds| - 1], rounds[|rounds| - 1];
      var before := RunSteps(lfd, init, maxPayload);
      var w := After(before, maxPayload);
      NobodyLostInRun(lfd, init, maxPayload);
      NobodyLostInPass(before, lfd, 0, Highest(lfd, w.accepted), Snapshot(w, lfd, input), input, maxPayload);
    }
  }
}
