/** What the poll thread does get done: it calls every ready descriptor that has a callback, it comes
    around, and a thread that removes a descriptor can always return. */
module PollProgress {
  import opened PollRemoval

  // ---------------------------------------------------------------- in every run

  /** Who waits has a broadcast coming, and who holds the lock to remove has not waited yet. */
  ghost predicate Awaited(p: Poll) {
    && (forall t :: t in p.removers && p.removers[t].Waiting? ==> p.pending)
    && (p.lock.Removing? ==> p.lock.thread !in p.removers)
  }

  lemma StepKeepsAwaited(p: Poll, step: Step)
    requires Awaited(p) && Enabled(p, step)
    ensures Awaited(Apply(p, step))
  {
  }

  lemma {:induction false} RunKeepsAwaited(steps: seq<Step>)
    ensures Awaited(Run(steps))
  {
    if steps != [] {
      var p, step := Run(steps[..|steps| - 1]), steps[|steps| - 1];
      RunKeepsAwaited(steps[..|steps| - 1]);
      if Enabled(p, step) {
        StepKeepsAwaited(p, step);
      }
    }
  }

  // ---------------------------------------------------------------- a round

  /** The events of a queue whose descriptors have a callback. */
  function Having(queue: seq<Event>, callbacks: set<nat>): seq<Event> {
    if queue == [] then []
    else (if queue[0].fd in callbacks then [queue[0]] else []) + Having(queue[1..], callbacks)
  }

  /** Everything but the position of the poll thread and its record of calls. */
  predicate SameBut(p: Poll, p1: Poll) {
    p1 == p.(phase := p1.phase, calls := p1.calls)
  }

  /** One event of a round: called if it has a callback, passed over if not. */
  lemma OneEvent(steps: seq<Step>) returns (more: seq<Step>)
    requires Run(steps).phase.Dispatching? && Run(steps).phase.queue != []
    ensures var p, p1 := Run(steps), Run(steps + more);
      && SameBut(p, p1) && p1.phase == Dispatching(p.phase.queue[1..])
      && p1.calls == p.calls + if p.phase.queue[0].fd in p.callbacks then [p.phase.queue[0]] else []
  {
    var p := Run(steps);
    Extend(steps, Dispatch, p);
    if p.phase.queue[0].fd in p.callbacks {
      var p1 := Apply(p, Dispatch);
      Extend(steps + [Dispatch], Call, p1);
      Extend(steps + [Dispatch] + [Call], CallReturns, Apply(p1, Call));
      more := [Dispatch, Call, CallReturns];
      assert steps + more == steps + [Dispatch] + [Call] + [CallReturns];
    } else {
      more := [Dispatch];
      assert p.calls + [] == p.calls;
    }
  }

  /** The poll thread, left to itself, calls every ready descriptor that has a callback, each once and in
      order, and comes back to the top of its loop. */
  lemma {:induction false} RoundCallsAll(steps: seq<Step>) returns (more: seq<Step>)
    requires Run(steps).phase.Dispatching?
    ensures var p, p1 := Run(steps), Run(steps + more);
      SameBut(p, p1) && p1.phase == Top && p1.calls == p.calls + Having(p.phase.queue, p.callbacks)
    decreases |Run(steps).phase.queue|
  {
    var p := Run(steps);
    if p.phase.queue == [] {
      more := [Dispatch];
      Extend(steps, Dispatch, p);
    } else {
      var first := OneEvent(steps);
      hide Run;
      var rest := RoundCallsAll(steps + first);
      more := first + rest;
      assert steps + more == steps + first + rest;
    }
  }

  lemma CallFinishes(steps: seq<Step>) returns (more: seq<Step>)
    requires Run(steps).phase.Tested? || Run(steps).phase.Calling?
    ensures SameBut(Run(steps), Run(steps + more)) && Run(steps + more).phase.Dispatching?
  {
    var p := Run(steps);
    hide Run;
    if p.phase.Tested? {
      Extend(steps, Call, p);
      Extend(steps + [Call], CallReturns, Apply(p, Call));
      more := [Call, CallReturns];
      assert steps + more == steps + [Call] + [CallReturns];
    } else {
      Extend(steps, CallReturns, p);
      more := [CallReturns];
    }
  }

  lemma RoundCanStart(steps: seq<Step>) returns (more: seq<Step>)
    requires Run(steps).phase.Top? || Run(steps).phase.Snapshot? || Run(steps).phase.Selecting?
    ensures SameBut(Run(steps), Run(steps + more)) && Run(steps + more).phase == Top
  {
    var p := Run(steps);
    hide Run;
    if p.phase.Top? {
      more := [];
      assert steps + more == steps;
    } else if p.phase.Snapshot? {
      Extend(steps, TakeSnapshot, p);
      Extend(steps + [TakeSnapshot], Select([]), Apply(p, TakeSnapshot));
      more := [TakeSnapshot, Select([])];
      assert steps + more == steps + [TakeSnapshot] + [Select([])];
    } else {
      more := [Select([])];
      Extend(steps, Select([]), p);
    }
  }

  /** From wherever it stands, the poll thread comes around without anybody's help. */
  lemma ComesAround(steps: seq<Step>) returns (more: seq<Step>)
    ensures SameBut(Run(steps), Run(steps + more)) && Run(steps + more).phase == Top
  {
    hide Run;
    if Run(steps).phase.Dispatching? {
      more := RoundCallsAll(steps);
    } else if Run(steps).phase.Tested? || Run(steps).phase.Calling? {
      var first := CallFinishes(steps);
      var rest := RoundCallsAll(steps + first);
      more := first + rest;
      assert steps + more == steps + first + rest;
    } else {
      more := RoundCanStart(steps);
    }
  }

  // ---------------------------------------------------------------- removing

  /** Whoever holds the lock can let go of it. */
  lemma LockCanBeFreed(steps: seq<Step>) returns (more: seq<Step>)
    ensures var p, p1 := Run(steps), Run(steps + more);
      && p1.lock == Free && p1.phase == p.phase && (p.pending ==> p1.pending)
      && forall t :: t in p.removers ==> t in p1.removers && p1.removers[t] == p.removers[t]
  {
    var p := Run(steps);
    RunKeepsAwaited(steps);
    match p.lock
    case Free =>
      more := [];
      assert steps + more == steps;
    case Adding(_) =>
      more := [AddEnd];
      Extend(steps, AddEnd, p);
    case Deleting(_, _) =>
      more := [DeleteEnd];
      Extend(steps, DeleteEnd, p);
    case Removing(_, _) =>
      more := [RemoveWait];
      Extend(steps, RemoveWait, p);
  }

  /** From every reachable state: a thread that waits in `block_remove_fd` can return, by steps of the poll
      thread and of whoever holds the lock alone, and without waking by itself. */
  lemma RemoverCanReturn(steps: seq<Step>, t: nat, fd: nat) returns (more: seq<Step>)
    requires t in Run(steps).removers && Run(steps).removers[t] == Waiting(fd)
    ensures t in Run(steps + more).removers && Run(steps + more).removers[t] == Returned(fd)
    ensures fd !in Run(steps + more).callbacks
  {
    RunKeepsAwaited(steps);
    var free := LockCanBeFreed(steps);
    var around := ComesAround(steps + free);
    var s := steps + free + around;
    Extend(s, TopOfLoop, Run(s));
    Extend(s + [TopOfLoop], RemoveReturn(t), Apply(Run(s), TopOfLoop));
    more := free + around + [TopOfLoop, RemoveReturn(t)];
    assert steps + more == s + [TopOfLoop] + [RemoveReturn(t)];
  }

  // ---------------------------------------------------------------- adding and deleting

  /** From the top of its loop, the poll thread can find any watched descriptor ready. */
  lemma CanBeFoundReady(steps: seq<Step>, e: Event)
    requires var p := Run(steps);
      p.phase.Top? && p.lock.Free? && (if e.write then e.fd in p.wfds else e.fd in p.rfds)
    ensures var p, p1 := Run(steps), Run(steps + [TopOfLoop, TakeSnapshot, Select([e])]);
      p1.phase == Dispatching([e]) && p1.callbacks == p.callbacks && p1.calls == p.calls
  {
    var p := Run(steps);
    hide Run;
    Extend(steps, TopOfLoop, p);
    var p1 := Apply(p, TopOfLoop);
    Extend(steps + [TopOfLoop], TakeSnapshot, p1);
    var p2 := Apply(p1, TakeSnapshot);
    Extend(steps + [TopOfLoop] + [TakeSnapshot], Select([e]), p2);
    assert steps + [TopOfLoop, TakeSnapshot, Select([e])] == steps + [TopOfLoop] + [TakeSnapshot] + [Select([e])];
  }

  /** A callback that was added can be called: with the lock free, some round of the poll thread does. */
  lemma WatchedCanBeCalled(steps: seq<Step>, e: Event) returns (more: seq<Step>)
    requires var p := Run(steps);
      p.lock.Free? && e.fd in p.callbacks && (if e.write then e.fd in p.wfds else e.fd in p.rfds)
    ensures CalledSince(Run(steps + more), |Run(steps).calls|, e.fd)
  {
    hide Run;
    var around := ComesAround(steps);
    CallsGrow(steps, around);
    CanBeFoundReady(steps + around, e);
    var s := steps + around + [TopOfLoop, TakeSnapshot, Select([e])];
    var rest := RoundCallsAll(s);
    more := around + [TopOfLoop, TakeSnapshot, Select([e])] + rest;
    assert steps + more == s + rest;
    assert Having([e], Run(s).callbacks) == [e] + Having([e][1..], Run(s).callbacks);
    assert Run(steps + more).calls[|Run(s).calls|] == e;
  }

  /** The record of calls only grows. */
  lemma {:induction false} CallsGrow(steps: seq<Step>, more: seq<Step>)
    ensures |Run(steps).calls| <= |Run(steps + more).calls|
    decreases |more|
  {
    if more == [] {
      assert steps + more == steps;
    } else {
      var n := |more| - 1;
      CallsGrow(steps, more[..n]);
      assert (steps + more)[..|steps + more| - 1] == steps + more[..n];
    }
  }

  /** What is added is watched in the directions asked for and in those it was, and has a callback. */
  lemma AddedIsWatched(steps: seq<Step>, fd: nat, flag: Flag)
    requires Run(steps).lock.Free?
    ensures var p, p1 := Run(steps), Run(steps + [AddBegin(fd, flag), AddEnd]);
      && p1.lock.Free? && (forall g :: g in p1.callbacks <==> g == fd || g in p.callbacks)
      && (forall g :: g in p1.rfds <==> (g == fd && !flag.WriteOnly?) || g in p.rfds)
      && (forall g :: g in p1.wfds <==> (g == fd && !flag.ReadOnly?) || g in p.wfds)
  {
    TwoSteps(steps, AddBegin(fd, flag), AddEnd);
  }

  /** What is deleted is no longer watched in the directions asked for; when none is left its callback goes,
      and no other descriptor is touched. */
  lemma DeletedIsNotWatched(steps: seq<Step>, fd: nat, flag: Flag)
    requires Run(steps).lock.Free?
    ensures var p, p1 := Run(steps), Run(steps + [DeleteBegin(fd, flag), DeleteEnd]);
      && p1.lock.Free? && (forall g :: g in p1.callbacks <==> g in p.callbacks && (g != fd || Watched(p1, fd)))
      && (forall g :: g in p1.rfds <==> g in p.rfds && (g != fd || flag.WriteOnly?))
      && (forall g :: g in p1.wfds <==> g in p.wfds && (g != fd || flag.ReadOnly?))
  {
    TwoSteps(steps, DeleteBegin(fd, flag), DeleteEnd);
  }

  lemma TwoSteps(steps: seq<Step>, a: Step, b: Step)
    requires Enabled(Run(steps), a) && Enabled(Apply(Run(steps), a), b)
    ensures Run(steps + [a, b]) == Apply(Apply(Run(steps), a), b)
  {
    Extend(steps, a, Run(steps));
    Extend(steps + [a], b, Apply(Run(steps), a));
    assert steps + [a, b] == steps + [a] + [b];
  }
}
