/** The descriptor sets of the poll thread as an object: what is watched, the highest watched
    descriptor, and the scan of what `select` left in its copies of the sets. */
module SelectAioModule {
  import opened PollRemoval

  predicate Ascending(fds: seq<nat>) {
    forall i, j :: 0 <= i < j < |fds| ==> fds[i] < fds[j]
  }

  /** The events of one round: all reads, then all writes. */
  function Events(readable: seq<nat>, writable: seq<nat>): (queue: seq<Event>)
    ensures |queue| == |readable| + |writable|
    ensures forall i :: 0 <= i < |readable| ==> queue[i] == Event(readable[i], false)
    ensures forall i :: 0 <= i < |writable| ==> queue[|readable| + i] == Event(writable[i], true)
  {
    seq(|readable|, i requires 0 <= i < |readable| => Event(readable[i], false))
    + seq(|writable|, i requires 0 <= i < |writable| => Event(writable[i], true))
  }

  class SelectAio {
    const pipe: nat
    var rfds: set<nat>
    var wfds: set<nat>
    var high: nat

    /** The bound passed to `select` is the largest watched descriptor, so it covers them all. */
    ghost predicate Valid()
      reads this
    {
      && pipe in rfds
      && (high in rfds || high in wfds)
      && (forall fd :: fd in rfds || fd in wfds ==> fd <= high)
    }

    constructor (pipe: nat)
      ensures Valid() && this.pipe == pipe && rfds == {pipe} && wfds == {}
    {
      this.pipe := pipe;
      rfds, wfds, high := {pipe}, {}, pipe;
    }

    method WatchFd(ghost p: Poll, fd: nat, flag: Flag)
      requires Valid() && rfds == p.rfds + {pipe} && wfds == p.wfds
      modifies this
      ensures Valid() && rfds == Watch(p, fd, flag).rfds + {pipe} && wfds == Watch(p, fd, flag).wfds
    {
      if high <= fd {
        high := fd;
      }
      match flag {
        case ReadOnly => rfds := rfds + {fd};
        case WriteOnly => wfds := wfds + {fd};
        case ReadWrite => rfds, wfds := rfds + {fd}, wfds + {fd};
      }
    }

    /** Takes the descriptor out and looks for the new highest one if it was the highest. */
    method UnwatchFd(ghost p: Poll, fd: nat, flag: Flag) returns (gone: bool)
      requires Valid() && fd != pipe && rfds == p.rfds + {pipe} && wfds == p.wfds
      modifies this
      ensures Valid() && rfds == Unwatch(p, fd, flag).rfds + {pipe} && wfds == Unwatch(p, fd, flag).wfds
      ensures gone == !Watched(Unwatch(p, fd, flag), fd)
    {
      match flag {
        case ReadOnly => rfds := rfds - {fd};
        case WriteOnly => wfds := wfds - {fd};
        case ReadWrite => rfds, wfds := rfds - {fd}, wfds - {fd};
      }
      if fd !in rfds && fd !in wfds && fd == high {
        var newHigh := pipe;
        var i := 0;
        while i <= high
          invariant i <= high + 1 && (newHigh in rfds || newHigh in wfds)
          invariant forall f :: f < i && (f in rfds || f in wfds) ==> f <= newHigh
        {
          if i in rfds || i in wfds {
            newHigh := i;
          }
          i := i + 1;
        }
        high := newHigh;
      }
      gone := fd !in rfds && fd !in wfds;
    }

    /** The scan of the sets that `select` returned, `r` and `w`, up to the bound taken with the
        snapshot: every ready descriptor once and in order, except for the pipe's own wake-up. */
    method Scan(ghost snapshot: Phase, bound: nat, r: set<nat>, w: set<nat>) returns (readable: seq<nat>, writable: seq<nat>)
      requires snapshot.Selecting? && r <= snapshot.readSet + {pipe} && w <= snapshot.writeSet
      requires forall fd :: fd in r || fd in w ==> fd <= bound
      ensures Ascending(readable) && Ascending(writable)
      ensures forall fd :: fd in readable <==> fd in r && fd != pipe
      ensures forall fd :: fd in writable <==> fd in w && !(fd == pipe && pipe in r)
      ensures FromSnapshot(Events(readable, writable), snapshot)
    {
      readable, writable := [], [];
      var fd := 0;
      while fd <= bound
        invariant fd <= bound + 1
        invariant Ascending(readable) && Ascending(writable)
        invariant forall f :: f in readable <==> f in r && f != pipe && f < fd
        invariant forall f :: f in writable <==> f in w && !(f == pipe && pipe in r) && f < fd
        invariant forall i :: 0 <= i < |readable| ==> readable[i] < fd
        invariant forall i :: 0 <= i < |writable| ==> writable[i] < fd
      {
        if !(fd == pipe && fd in r) {
          if fd in w {
            writable := writable + [fd];
          }
          if fd in r {
            readable := readable + [fd];
          }
        }
        fd := fd + 1;
      }
      assert forall i :: 0 <= i < |readable| ==> readable[i] in readable;
      assert forall i :: 0 <= i < |writable| ==> writable[i] in writable;
    }
  }
}
