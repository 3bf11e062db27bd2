/** The poll thread and the threads that take descriptors away from it. The poll thread holds the lock
    only at the top of its loop; the snapshot for `select` and the dispatch of callbacks run beside
    everything else. `block_remove_fd` therefore waits for the thread to come around. */
module PollRemoval {

  datatype Flag = ReadOnly | WriteOnly | ReadWrite

  /** A descriptor found ready; the reads of a round are dispatched before its writes. */
  datatype Event = Event(fd: nat, write: bool)

  /** Where the poll thread stands. It tests whether a descriptor has a callback and then calls it,
      without the lock: between the two the callback may be taken away, and the call is made all the
      same. */
  datatype Phase =
    | Top
    | Snapshot
    | Selecting(readSet: set<nat>, writeSet: set<nat>)
    | Dispatching(queue: seq<Event>)
    | Tested(event: Event, queue: seq<Event>)
    | Calling(event: Event, queue: seq<Event>)

  /** Who holds the lock of the manager, and in the middle of what. */
  datatype Lock = Free | Adding(fd: nat) | Deleting(fd: nat, unwatched: bool) | Removing(thread: nat, fd: nat)

  /** Where a thread stands in `block_remove_fd` after it let go of the lock. */
  datatype Remover = Waiting(fd: nat) | Woken(fd: nat) | Returned(fd: nat)

  /** `calls` lists the callbacks that were invoked so far. */
  datatype Poll = Poll(
    rfds: set<nat>, wfds: set<nat>, callbacks: set<nat>, pending: bool,
    lock: Lock, phase: Phase, removers: map<nat, Remover>, calls: seq<Event>)

  const INITIAL := Poll({}, {}, {}, false, Free, Top, map[], [])

  datatype Step =
    | AddBegin(fd: nat, flag: Flag)
    | AddEnd
    | DeleteBegin(fd: nat, flag: Flag)
    | DeleteEnd
    | RemoveBegin(thread: nat, fd: nat)
    | RemoveWait
    | RemoveReturn(thread: nat)
    | Spurious(thread: nat)
    | TopOfLoop
    | TakeSnapshot
    | Select(queue: seq<Event>)
    | Dispatch
    | Call
    | CallReturns

  function Watch(p: Poll, fd: nat, flag: Flag): Poll {
    p.(rfds := if flag.WriteOnly? then p.rfds else p.rfds + {fd},
       wfds := if flag.ReadOnly? then p.wfds else p.wfds + {fd})
  }

  function Unwatch(p: Poll, fd: nat, flag: Flag): Poll {
    p.(rfds := if flag.WriteOnly? then p.rfds else p.rfds - {fd},
       wfds := if flag.ReadOnly? then p.wfds else p.wfds - {fd})
  }

  predicate Watched(p: Poll, fd: nat) {
    fd in p.rfds || fd in p.wfds
  }

  /** `select` reports only descriptors of the snapshot that it was given. */
  predicate FromSnapshot(queue: seq<Event>, phase: Phase)
    requires phase.Selecting?
  {
    forall i :: 0 <= i < |queue| ==>
      if queue[i].write then queue[i].fd in phase.writeSet else queue[i].fd in phase.readSet
  }

  /** The broadcast wakes every thread that waits. */
  function WakeAll(removers: map<nat, Remover>): map<nat, Remover> {
    map t | t in removers :: if removers[t].Waiting? then Woken(removers[t].fd) else removers[t]
  }

  predicate Enabled(p: Poll, step: Step) {
    match step
    case AddBegin(_, _) => p.lock.Free?
    case AddEnd => p.lock.Adding?
    case DeleteBegin(_, _) => p.lock.Free?
    case DeleteEnd => p.lock.Deleting?
    case RemoveBegin(t, _) => p.lock.Free? && t !in p.removers
    case RemoveWait => p.lock.Removing? && p.lock.thread !in p.removers
    case RemoveReturn(t) => p.lock.Free? && t in p.removers && p.removers[t].Woken?
    case Spurious(t) => t in p.removers && p.removers[t].Waiting?
    case TopOfLoop => p.lock.Free? && p.phase.Top?
    case TakeSnapshot => p.phase.Snapshot?
    case Select(queue) => p.phase.Selecting? && FromSnapshot(queue, p.phase)
    case Dispatch => p.phase.Dispatching?
    case Call => p.phase.Tested?
    case CallReturns => p.phase.Calling?
  }

  function Apply(p: Poll, step: Step): Poll
    requires Enabled(p, step)
  {
    match step
    case AddBegin(fd, flag) => Watch(p, fd, flag).(lock := Adding(fd))
    case AddEnd => p.(callbacks := p.callbacks + {p.lock.fd}, lock := Free)
    case DeleteBegin(fd, flag) =>
      var p1 := Unwatch(p, fd, flag);
      p1.(lock := Deleting(fd, !Watched(p1, fd)))
    case DeleteEnd => p.(callbacks := if p.lock.unwatched then p.callbacks - {p.lock.fd} else p.callbacks, lock := Free)
    case RemoveBegin(t, fd) => Unwatch(p, fd, ReadWrite).(lock := Removing(t, fd))
    case RemoveWait => p.(pending := true, removers := p.removers[p.lock.thread := Waiting(p.lock.fd)], lock := Free)
    case RemoveReturn(t) =>
      var fd := p.removers[t].fd;
      p.(callbacks := p.callbacks - {fd}, removers := p.removers[t := Returned(fd)])
    case Spurious(t) => p.(removers := p.removers[t := Woken(p.removers[t].fd)])
    case TopOfLoop =>
      (if p.pending then p.(pending := false, removers := WakeAll(p.removers)) else p).(phase := Snapshot)
    case TakeSnapshot => p.(phase := Selecting(p.rfds, p.wfds))
    case Select(queue) => p.(phase := if queue == [] then Top else Dispatching(queue))
    case Dispatch =>
      if p.phase.queue == [] then p.(phase := Top)
      else
        var e, rest := p.phase.queue[0], p.phase.queue[1..];
        p.(phase := if e.fd in p.callbacks then Tested(e, rest) else Dispatching(rest))
    case Call => p.(phase := Calling(p.phase.event, p.phase.queue), calls := p.calls + [p.phase.event])
    case CallReturns => p.(phase := Dispatching(p.phase.queue))
  }

  /** The state after a run; a step that cannot be taken is skipped. */
  function Run(steps: seq<Step>): Poll {
    if steps == [] then INITIAL
    else
      var p := Run(steps[..|steps| - 1]);
      var step := steps[|steps| - 1];
      if Enabled(p, step) then Apply(p, step) else p
  }

  // ---------------------------------------------------------------- one removal

  /** Thread `t` has begun to remove the descriptor; every call of `block_remove_fd` has its own `t`. */
  predicate Begun(p: Poll, t: nat, fd: nat) {
    p.lock == Removing(t, fd) || (t in p.removers && p.removers[t].fd == fd)
  }

  /** The thread is past its wait. */
  predicate Released(p: Poll, t: nat, fd: nat) {
    t in p.removers && (p.removers[t] == Woken(fd) || p.removers[t] == Returned(fd))
  }

  /** The thread does not wake without a broadcast, and nobody watches the descriptor again once the
      thread has begun to remove it. Other threads and descriptors are free. */
  predicate Allowed(p: Poll, step: Step, t: nat, fd: nat) {
    step != Spurious(t) && (step.AddBegin? && step.fd == fd ==> !Begun(p, t, fd))
  }

  predicate Orderly(steps: seq<Step>, t: nat, fd: nat) {
    forall i :: 0 <= i < |steps| ==> Allowed(Run(steps[..i]), steps[i], t, fd)
  }

  // ---------------------------------------------------------------- invariant

  predicate InQueue(queue: seq<Event>, fd: nat) {
    exists i :: 0 <= i < |queue| && queue[i].fd == fd
  }

  /** The poll thread may still come to a callback of the descriptor in its current round. */
  predicate Touches(phase: Phase, fd: nat) {
    match phase
    case Top => false
    case Snapshot => false
    case Selecting(r, w) => fd in r || fd in w
    case Dispatching(queue) => InQueue(queue, fd)
    case Tested(e, queue) => e.fd == fd || InQueue(queue, fd)
    case Calling(e, queue) => e.fd == fd || InQueue(queue, fd)
  }

  predicate Inv(p: Poll, t: nat, fd: nat) {
    && (p.lock.Removing? ==> p.lock.thread !in p.removers)
    && (Begun(p, t, fd) ==> !Watched(p, fd))
    && (t in p.removers && p.removers[t].Waiting? ==> p.pending)
    && (Released(p, t, fd) ==> !Touches(p.phase, fd))
  }

  /** A round never comes to a descriptor that its snapshot did not have. */
  lemma RoundsShrink(p: Poll, step: Step, fd: nat)
    requires Enabled(p, step) && !step.TakeSnapshot? && !Touches(p.phase, fd)
    ensures !Touches(Apply(p, step).phase, fd)
  {
    if step.Dispatch? && p.phase.queue != [] {
      var queue := p.phase.queue;
      assert forall i :: 0 <= i < |queue| - 1 ==> queue[1..][i] == queue[i + 1];
      assert queue[0].fd != fd;
    }
  }

  lemma StepKeepsInv(p: Poll, step: Step, t: nat, fd: nat)
    requires Inv(p, t, fd) && Enabled(p, step) && Allowed(p, step, t, fd)
    ensures Inv(Apply(p, step), t, fd)
  {
    if !step.TakeSnapshot? && !Touches(p.phase, fd) {
      RoundsShrink(p, step, fd);
    }
  }

  lemma OrderlyPrefix(steps: seq<Step>, n: nat, t: nat, fd: nat)
    requires Orderly(steps, t, fd) && n <= |steps|
    ensures Orderly(steps[..n], t, fd)
  {
    assert forall i :: 0 <= i < n ==> steps[..n][..i] == steps[..i];
  }

  lemma {:induction false} RunKeepsInv(steps: seq<Step>, t: nat, fd: nat)
    requires Orderly(steps, t, fd)
    ensures Inv(Run(steps), t, fd)
  {
    if steps != [] {
      var n := |steps| - 1;
      OrderlyPrefix(steps, n, t, fd);
      RunKeepsInv(steps[..n], t, fd);
      if Enabled(Run(steps[..n]), steps[n]) {
        StepKeepsInv(Run(steps[..n]), steps[n], t, fd);
      }
    }
  }

  // ---------------------------------------------------------------- the promise of block_remove_fd

  predicate CalledSince(p: Poll, n: nat, fd: nat) {
    exists k :: n <= k < |p.calls| && p.calls[k].fd == fd
  }

  lemma StepAfterRelease(p: Poll, step: Step, n: nat, t: nat, fd: nat)
    requires Inv(p, t, fd) && Released(p, t, fd) && Enabled(p, step) && Allowed(p, step, t, fd)
    requires n <= |p.calls| && !CalledSince(p, n, fd)
    ensures var p1 := Apply(p, step); Released(p1, t, fd) && |p.calls| <= |p1.calls| && !CalledSince(p1, n, fd)
  {
  }

  /** Once `block_remove_fd` is past its wait, and so in particular once it has returned, no callback of
      the descriptor is running and none is ever invoked again, whatever the other threads do. */
  lemma {:induction false} NoCallbackAfterRemoval(steps: seq<Step>, n: nat, t: nat, fd: nat)
    requires n <= |steps| && Orderly(steps, t, fd) && Released(Run(steps[..n]), t, fd)
    ensures Released(Run(steps), t, fd) && !Touches(Run(steps).phase, fd)
    ensures |Run(steps[..n]).calls| <= |Run(steps).calls|
    ensures !CalledSince(Run(steps), |Run(steps[..n]).calls|, fd)
    decreases |steps|
  {
    RunKeepsInv(steps, t, fd);
    if n == |steps| {
      assert steps[..n] == steps;
    } else {
      var m := |steps| - 1;
      OrderlyPrefix(steps, m, t, fd);
      assert steps[..m][..n] == steps[..n];
      NoCallbackAfterRemoval(steps[..m], n, t, fd);
      RunKeepsInv(steps[..m], t, fd);
      hide Inv, Touches, Apply;
      if Enabled(Run(steps[..m]), steps[m]) {
        StepAfterRelease(Run(steps[..m]), steps[m], |Run(steps[..n]).calls|, t, fd);
      }
    }
  }

  // ---------------------------------------------------------------- exactly when the promise fails

  /** The last step of `base` is the return of `block_remove_fd(fd)` in thread `t`. */
  predicate AtReturn(base: seq<Step>, t: nat, fd: nat) {
    && base != [] && base[|base| - 1] == RemoveReturn(t)
    && var before := Run(base[..|base| - 1]); Enabled(before, RemoveReturn(t)) && before.removers[t].fd == fd
  }

  /** Nobody watches the descriptor again after `base`; threads may wake by themselves. */
  predicate NotWatchedAgain(base: seq<Step>, more: seq<Step>, fd: nat) {
    forall i :: 0 <= i < |more| ==>
      !(more[i].AddBegin? && more[i].fd == fd && Enabled(Run(base + more[..i]), more[i]))
  }

  predicate BeforeCall(phase: Phase, fd: nat) {
    phase.Tested? && phase.event.fd == fd
  }

  predicate InCallback(phase: Phase, fd: nat) {
    phase.Calling? && phase.event.fd == fd
  }

  /** A callback of the descriptor is running at the first state, or is invoked between the two. */
  predicate CalledAfter(p0: Poll, p: Poll, fd: nat) {
    InCallback(p0.phase, fd) || CalledSince(p, |p0.calls|, fd)
  }

  /** The descriptor has no callback and is not about to get one. */
  predicate Unset(p: Poll, fd: nat) {
    fd !in p.callbacks && p.lock != Adding(fd)
  }

  /** How things stand some time after the return at `p0`. */
  predicate Since(p0: Poll, p: Poll, fd: nat) {
    && Unset(p, fd) && |p0.calls| <= |p.calls|
    && (BeforeCall(p.phase, fd) ==> BeforeCall(p0.phase, fd))
    && (BeforeCall(p0.phase, fd) ==> BeforeCall(p.phase, fd) || CalledSince(p, |p0.calls|, fd))
    && (CalledSince(p, |p0.calls|, fd) ==> BeforeCall(p0.phase, fd))
  }

  lemma StepSince(p0: Poll, p: Poll, step: Step, fd: nat)
    requires Since(p0, p, fd) && Enabled(p, step) && !(step.AddBegin? && step.fd == fd)
    ensures Since(p0, Apply(p, step), fd)
  {
    var p1 := Apply(p, step);
    assert forall k :: 0 <= k < |p.calls| ==> p1.calls[k] == p.calls[k];
    if step.Call? {
      assert p1.calls[|p.calls|] == p.phase.event;
    }
  }

  lemma {:induction false} RunSince(base: seq<Step>, t: nat, fd: nat, more: seq<Step>)
    requires AtReturn(base, t, fd) && NotWatchedAgain(base, more, fd)
    ensures Since(Run(base), Run(base + more), fd)
    decreases |more|
  {
    if more == [] {
      assert base + more == base;
    } else {
      var n := |more| - 1;
      assert forall i :: 0 <= i < n ==> more[..n][..i] == more[..i];
      RunSince(base, t, fd, more[..n]);
      assert (base + more)[..|base + more| - 1] == base + more[..n];
      hide Apply, Since;
      if Enabled(Run(base + more[..n]), more[n]) {
        StepSince(Run(base), Run(base + more[..n]), more[n], fd);
      }
    }
  }

  /** In every run in which the descriptor is not watched again after the return, spurious wake-ups
      included: the callback is running at the return, or is invoked later, or the poll thread is still
      about to invoke it, exactly when at the return the poll thread stands between the test and the
      call, or in the callback. */
  lemma CallbackAfterReturnIff(base: seq<Step>, t: nat, fd: nat, more: seq<Step>)
    requires AtReturn(base, t, fd) && NotWatchedAgain(base, more, fd)
    ensures var p0, p := Run(base), Run(base + more);
      CalledAfter(p0, p, fd) || BeforeCall(p.phase, fd) <==> BeforeCall(p0.phase, fd) || InCallback(p0.phase, fd)
  {
    RunSince(base, t, fd, more);
  }

  /** So where the poll thread stands at the return decides whether the promise can be broken. */
  lemma PromiseBreaksIff(base: seq<Step>, t: nat, fd: nat)
    requires AtReturn(base, t, fd)
    ensures (exists more :: NotWatchedAgain(base, more, fd) && CalledAfter(Run(base), Run(base + more), fd))
       <==> BeforeCall(Run(base).phase, fd) || InCallback(Run(base).phase, fd)
  {
    if more :| NotWatchedAgain(base, more, fd) && CalledAfter(Run(base), Run(base + more), fd) {
      CallbackAfterReturnIff(base, t, fd, more);
    }
    var p0 := Run(base);
    if InCallback(p0.phase, fd) {
      assert NotWatchedAgain(base, [], fd) && CalledAfter(p0, Run(base + []), fd);
    }
    if BeforeCall(p0.phase, fd) {
      Extend(base, Call, p0);
      var p := Run(base + [Call]);
      assert p.calls[|p0.calls|].fd == fd;
      assert NotWatchedAgain(base, [Call], fd) && CalledAfter(p0, p, fd);
    }
  }

  /** The code keeps its promise whenever the thread was woken by the broadcast and the descriptor was
      not watched again: then the poll thread is in neither place at the return. */
  lemma WokenByBroadcast(base: seq<Step>, t: nat, fd: nat, more: seq<Step>)
    requires AtReturn(base, t, fd) && Orderly(base, t, fd) && NotWatchedAgain(base, more, fd)
    ensures !BeforeCall(Run(base).phase, fd) && !InCallback(Run(base).phase, fd)
    ensures !CalledAfter(Run(base), Run(base + more), fd) && !BeforeCall(Run(base + more).phase, fd)
  {
    RunKeepsInv(base, t, fd);
    CallbackAfterReturnIff(base, t, fd, more);
  }

  // ---------------------------------------------------------------- both assumptions are needed

  lemma Extend(steps: seq<Step>, step: Step, p: Poll)
    requires Run(steps) == p && Enabled(p, step)
    ensures Run(steps + [step]) == Apply(p, step)
  {
    assert (steps + [step])[..|steps|] == steps;
  }

  const READY := Event(5, false)

  /** A run that ends between the test and the call for descriptor 5. */
  function TestedRun(): seq<Step> {
    [AddBegin(5, ReadOnly)] + [AddEnd] + [TopOfLoop] + [TakeSnapshot] + [Select([READY])] + [Dispatch]
  }

  lemma TestedRunState()
    ensures Run(TestedRun()) == Poll({5}, {}, {5}, false, Free, Tested(READY, []), map[], [])
  {
    var p := Poll({5}, {}, {5}, false, Free, Top, map[], []);
    var s1 := [AddBegin(5, ReadOnly)];
    assert [] + s1 == s1;
    Extend([], AddBegin(5, ReadOnly), INITIAL);
    Extend(s1, AddEnd, p.(callbacks := {}, lock := Adding(5)));
    Extend(s1 + [AddEnd], TopOfLoop, p);
    var s2 := s1 + [AddEnd] + [TopOfLoop];
    Extend(s2, TakeSnapshot, p.(phase := Snapshot));
    Extend(s2 + [TakeSnapshot], Select([READY]), p.(phase := Selecting({5}, {})));
    assert [READY][1..] == [];
    Extend(s2 + [TakeSnapshot] + [Select([READY])], Dispatch, p.(phase := Dispatching([READY])));
  }

  /** The wait of `block_remove_fd` is not in a loop: if it wakes by itself between the test and the
      call, it returns and the callback is invoked afterwards. */
  lemma SpuriousWakeCallsAfterReturn() returns (base: seq<Step>, more: seq<Step>)
    ensures AtReturn(base, 1, 5) && NotWatchedAgain(base, more, 5)
    ensures CalledSince(Run(base + more), |Run(base).calls|, 5)
  {
    TestedRunState();
    hide TestedRun, Run;
    var s := TestedRun();
    var p := Run(s);
    Extend(s, RemoveBegin(1, 5), p);
    var p1 := p.(rfds := {}, lock := Removing(1, 5));
    Extend(s + [RemoveBegin(1, 5)], RemoveWait, p1);
    var s2 := s + [RemoveBegin(1, 5)] + [RemoveWait];
    var p2 := p1.(pending := true, removers := map[1 := Waiting(5)], lock := Free);
    Extend(s2, Spurious(1), p2);
    var s3 := s2 + [Spurious(1)];
    Extend(s3, RemoveReturn(1), p2.(removers := map[1 := Woken(5)]));
    base, more := s3 + [RemoveReturn(1)], [Call];
    assert base[..|base| - 1] == s3;
    var p3 := p2.(callbacks := {}, removers := map[1 := Returned(5)]);
    Extend(base, Call, p3);
    assert Run(base + more).calls[0] == READY;
  }

  /** A run that ends after descriptor 5 was removed by thread 1 and nobody watches anything. */
  function Removed(): seq<Step> {
    [RemoveBegin(1, 5)] + [RemoveWait] + [TopOfLoop] + [RemoveReturn(1)]
  }

  lemma RemovedState()
    ensures Run(Removed()) == Poll({}, {}, {}, false, Free, Snapshot, map[1 := Returned(5)], [])
    ensures AtReturn(Removed(), 1, 5)
  {
    var p := Poll({}, {}, {}, false, Free, Top, map[1 := Waiting(5)], []);
    var s1 := [RemoveBegin(1, 5)];
    assert [] + s1 == s1;
    Extend([], RemoveBegin(1, 5), INITIAL);
    Extend(s1, RemoveWait, p.(lock := Removing(1, 5), removers := map[]));
    Extend(s1 + [RemoveWait], TopOfLoop, p.(pending := true));
    assert WakeAll(p.removers) == map[1 := Woken(5)];
    var s2 := s1 + [RemoveWait] + [TopOfLoop];
    Extend(s2, RemoveReturn(1), p.(phase := Snapshot, removers := map[1 := Woken(5)]));
    assert Removed()[..|Removed()| - 1] == s2;
  }

  /** A descriptor that is watched again after its removal is called again. */
  lemma WatchedAgainCalledAgain() returns (steps: seq<Step>, n: nat)
    ensures n <= |steps| && AtReturn(steps[..n], 1, 5) && CalledSince(Run(steps), |Run(steps[..n]).calls|, 5)
  {
    RemovedState();
    hide Removed, Run;
    var s := Removed();
    var p := Run(s);
    Extend(s, AddBegin(5, ReadOnly), p);
    var p1 := p.(rfds := {5}, callbacks := {5});
    Extend(s + [AddBegin(5, ReadOnly)], AddEnd, p1.(callbacks := {}, lock := Adding(5)));
    var s1 := s + [AddBegin(5, ReadOnly)] + [AddEnd];
    Extend(s1, TakeSnapshot, p1);
    Extend(s1 + [TakeSnapshot], Select([READY]), p1.(phase := Selecting({5}, {})));
    var s2 := s1 + [TakeSnapshot] + [Select([READY])];
    assert [READY][1..] == [];
    Extend(s2, Dispatch, p1.(phase := Dispatching([READY])));
    Extend(s2 + [Dispatch], Call, p1.(phase := Tested(READY, [])));
    steps, n := s2 + [Dispatch] + [Call], |s|;
    assert steps[..n] == s;
    assert Run(steps).calls == [READY];
    assert Run(steps).calls[0].fd == 5;
  }
}
