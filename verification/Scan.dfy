/** One pass of the server's select loop over the descriptors, as a list of steps. */
module Scan {
  import opened Bytes
  import opened Connection
  import opened World

  /** What `accept` returns: the kernel never hands out a descriptor that is open. */
  function AcceptCall(candidate: int, open: set<int>): int
  {
    if candidate < 0 || candidate in open then -1 else candidate
  }

  /** What the server does at a ready descriptor. */
  function ActionAt(w: World, lfd: int, fd: int, io: Io): Option<Step>
  {
    if fd == lfd then
      var cfd := AcceptCall(io.candidate, {lfd} + w.slots.Keys);
      if cfd < 0 then None else Some(Accept(cfd))
    else Some(Ready(fd, io))
  }

  /** The steps from descriptor `fd` up, `ready` being the snapshot `select` left. */
  function Pass(w: World, lfd: int, fd: int, top: int, ready: set<int>, input: map<int, Io>,
                maxPayload: int): seq<Step>
    requires ready <= input.Keys
    decreases top - fd
  {
    if fd > top then []
    else if fd !in ready then Pass(w, lfd, fd + 1, top, ready, input, maxPayload)
    else
      match ActionAt(w, lfd, fd, input[fd])
      case None => Pass(w, lfd, fd + 1, top, ready, input, maxPayload)
      case Some(s) => [s] + Pass(Apply(w, s, maxPayload), lfd, fd + 1, top, ready, input, maxPayload)
  }

  /** The descriptors `select` reports: those waited for that have something. */
  function Snapshot(w: World, lfd: int, input: map<int, Io>): set<int>
  {
    set fd | fd in input && (fd == lfd || fd in w.slots)
  }

  function ApplyAll(w: World, ss: seq<Step>, maxPayload: int): World
    decreases |ss|
  {
    if ss == [] then w else ApplyAll(Apply(w, ss[0], maxPayload), ss[1..], maxPayload)
  }

  lemma {:induction false} PassFrom(w: World, lfd: int, fd: int, top: int, ready: set<int>, input: map<int, Io>,
                                    maxPayload: int)
    requires ready <= input.Keys
    ensures forall s :: s in Pass(w, lfd, fd, top, ready, input, maxPayload) && s.Ready? ==>
        fd <= s.fd && s.fd in ready && s.fd != lfd
    decreases top - fd
  {
    hide Apply;
    if fd <= top {
      if fd !in ready || ActionAt(w, lfd, fd, input[fd]).None? {
        PassFrom(w, lfd, fd + 1, top, ready, input, maxPayload);
      } else {
        var s := ActionAt(w, lfd, fd, input[fd]).value;
        PassFrom(Apply(w, s, maxPayload), lfd, fd + 1, top, ready, input, maxPayload);
      }
    }
  }

  lemma OtherSlots(w: World, lfd: int, fd: int, io: Io, g: int, maxPayload: int)
    requires g in w.slots && g != fd && ActionAt(w, lfd, fd, io).Some?
    ensures var w' := Apply(w, ActionAt(w, lfd, fd, io).value, maxPayload); g in w'.slots && w'.slots[g] == w.slots[g]
  {
    hide React;
  }

  /**
   A descriptor accepted during a pass is not read in it: whatever the pass reads is a connection
   that was there when the snapshot was taken, in the state it then had.
   */
  lemma {:induction false} SnapshotHolds(w: World, lfd: int, fd: int, top: int, ready: set<int>, input: map<int, Io>,
                                         maxPayload: int, j: nat)
    requires ready <= input.Keys && (forall g :: g in ready && fd <= g && g != lfd ==> g in w.slots)
    requires var ss := Pass(w, lfd, fd, top, ready, input, maxPayload); j < |ss| && ss[j].Ready?
    ensures var ss := Pass(w, lfd, fd, top, ready, input, maxPayload);
      var g, w' := ss[j].fd, ApplyAll(w, ss[..j], maxPayload);
      g in w.slots && g in w'.slots && w'.slots[g] == w.slots[g]
    decreases top - fd
  {
    hide Apply;
    var ss := Pass(w, lfd, fd, top, ready, input, maxPayload);
    PassFrom(w, lfd, fd, top, ready, input, maxPayload);
    assert ss[j] in ss;
    if fd !in ready || ActionAt(w, lfd, fd, input[fd]).None? {
      SnapshotHolds(w, lfd, fd + 1, top, ready, input, maxPayload, j);
    } else if j > 0 {
      var s := ActionAt(w, lfd, fd, input[fd]).value;
      var w' := Apply(w, s, maxPayload);
      forall g | g in ready && fd < g && g != lfd ensures g in w'.slots && w'.slots[g] == w.slots[g] {
        OtherSlots(w, lfd, fd, input[fd], g, maxPayload);
      }
      PassFrom(w', lfd, fd + 1, top, ready, input, maxPayload);
      assert ss[1..] == Pass(w', lfd, fd + 1, top, ready, input, maxPayload);
      assert ss[j] == ss[1..][j - 1] && ss[..j][1..] == ss[1..][..j - 1];
      SnapshotHolds(w', lfd, fd + 1, top, ready, input, maxPayload, j - 1);
    }
  }

  /** The highest descriptor the server has had: the bound of its scan, which never comes down. */
  function Highest(lfd: int, accepted: seq<int>): int
  {
    if accepted == [] then lfd
    else
      var h, last := Highest(lfd, accepted[..|accepted| - 1]), accepted[|accepted| - 1];
      if last > h then last else h
  }

  lemma OneMore(fds: seq<int>, fd: int, lfd: int)
    ensures Highest(lfd, fds + [fd]) == if fd > Highest(lfd, fds) then fd else Highest(lfd, fds)
  {
    assert (fds + [fd])[..|fds|] == fds;
  }

  /** All the steps of a run: one pass per round, each on the snapshot of the world the last one left. */
  function RunSteps(lfd: int, rounds: seq<map<int, Io>>, maxPayload: int): seq<Step>
  {
    if rounds == [] then []
    else
      var before, input := RunSteps(lfd, rounds[..|rounds| - 1], maxPayload), rounds[|rounds| - 1];
      var w := After(before, maxPayload);
      before + Pass(w, lfd, 0, Highest(lfd, w.accepted), Snapshot(w, lfd, input), input, maxPayload)
  }
}
