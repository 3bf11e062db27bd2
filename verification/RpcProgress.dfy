/** What the protocol does, as opposed to what it never does: replies go out, the first one is taken,
    calls can always be completed, and a cancelled client stays closed. */
module RpcProgress {
  import opened RpcTypes
  import opened ReplyWindow
  import opened RpcProtocol
  import opened RpcTheorems

  // ---------------------------------------------------------------- replies go out

  ghost predicate OnTheWire(sys: System) {
    forall i :: 0 <= i < |sys.jobs| && sys.jobs[i].phase.Sent? ==>
      Reply(sys.jobs[i].req.clt, sys.jobs[i].req.xid, sys.jobs[i].phase.res) in sys.replies
  }

  lemma RepliesGrow(sys: System, step: Step)
    requires Enabled(sys, step)
    ensures sys.replies <= Apply(sys, step).replies
    ensures |sys.jobs| <= |Apply(sys, step).jobs|
    ensures forall i :: 0 <= i < |sys.jobs| ==>
      sys.jobs[i].req == Apply(sys, step).jobs[i].req && (sys.jobs[i].phase.Sent? ==> Apply(sys, step).jobs[i] == sys.jobs[i])
  {
  }

  lemma StepKeepsOnTheWire(sys: System, step: Step)
    requires OnTheWire(sys) && Enabled(sys, step)
    ensures OnTheWire(Apply(sys, step))
  {
    RepliesGrow(sys, step);
  }

  lemma {:induction false} RunKeepsOnTheWire(steps: seq<Step>)
    ensures OnTheWire(Run(steps))
  {
    if steps != [] {
      var sys, step := Run(steps[..|steps| - 1]), steps[|steps| - 1];
      RunKeepsOnTheWire(steps[..|steps| - 1]);
      if Enabled(sys, step) {
        StepKeepsOnTheWire(sys, step);
      }
    }
  }

  /** In every run, the result of every job that has been sent is on its way to the client. */
  lemma SentIsOnTheWire(steps: seq<Step>, i: nat, res: Result)
    requires i < |Run(steps).jobs| && Run(steps).jobs[i].phase == Sent(res)
    ensures Reply(Run(steps).jobs[i].req.clt, Run(steps).jobs[i].req.xid, res) in Run(steps).replies
  {
    RunKeepsOnTheWire(steps);
  }

  /** While the client waits, a duplicate of a call whose reply is recorded is answered with it. */
  lemma DuplicateGetsTheReply(steps: seq<Step>, i: nat, res: Result)
    requires i < |Run(steps).jobs| && Run(steps).jobs[i].req.clt in Run(steps).clients
    requires var job := Run(steps).jobs[i];
      var k := Run(steps).clients[job.req.clt];
      && job.req.clt != 0 && job.req.xid in k.calls && k.calls[job.req.xid].None?
      && (job.phase == Recorded(res) || job.phase == Sent(res))
    ensures var job := Run(steps).jobs[i];
      Reply(job.req.clt, job.req.xid, res) in Run(steps + [Deliver(job.srv, job.req)]).replies
  {
    var sys := Run(steps);
    var job := sys.jobs[i];
    RunKeepsInv(steps);
    assert JobOk(sys, job);
    RepliesAreRetained(steps, i, job.req.xidRep);
    RunExtends(steps, Deliver(job.srv, job.req));
  }

  /** What is too old is answered with a failure, and so is a request for another instance; a request
      that an instance has not seen gets a thread of its own and no answer yet; one that is being worked
      on gets nothing; one whose reply is recorded gets it. Nothing else goes out. */
  lemma DeliveryIsAnswered(steps: seq<Step>, s: nat, q: Request)
    requires s in Run(steps).servers && q in Run(steps).requests
    ensures var sys, sys' := Run(steps), Run(steps + [Deliver(s, q)]); var w := Win(sys, s, q.clt);
      if q.srv != 0 && q.srv != s then
        sys'.jobs == sys.jobs && sys'.replies == sys.replies + {Reply(q.clt, q.xid, Result(OLDSRV_FAILURE, []))}
      else if q.clt == 0 || (q.xid !in w && !TooOld(w, q.xid)) then
        sys'.jobs == sys.jobs + [Job(s, q, Accepted)] && sys'.replies == sys.replies
      else
        sys'.jobs == sys.jobs
        && sys'.replies == sys.replies +
             if q.xid !in w then {Reply(q.clt, q.xid, Result(ATMOSTONCE_FAILURE, []))}
             else if w[q.xid].Some? then {Reply(q.clt, q.xid, w[q.xid].value)} else {}
  {
    RunExtends(steps, Deliver(s, q));
  }

  /** Where a failure on the wire came from. */
  ghost predicate Explained(sys: System, rep: Reply) {
    || rep.res.ret >= 0
    || rep.res == Result(ATMOSTONCE_FAILURE, [])
    || (rep.res == Result(OLDSRV_FAILURE, []) && exists q :: q in sys.requests && IsCall(q, rep.clt, rep.xid) && q.srv != 0)
  }

  /** A step puts a reply on the wire only by sending a job's result or by delivering a request. */
  lemma NewReplies(sys: System, step: Step, rep: Reply)
    requires Enabled(sys, step) && rep in Apply(sys, step).replies && rep !in sys.replies
    ensures step.SendReply? || step.Deliver?
    ensures step.SendReply? ==>
      rep == Reply(sys.jobs[step.j].req.clt, sys.jobs[step.j].req.xid, sys.jobs[step.j].phase.res)
    ensures step.Deliver? ==> rep.clt == step.req.clt && rep.xid == step.req.xid
    ensures step.Deliver? && step.req.srv != 0 && step.req.srv != step.s ==> rep.res == Result(OLDSRV_FAILURE, [])
    ensures step.Deliver? && (step.req.srv == 0 || step.req.srv == step.s) ==>
      match Check(Win(sys, step.s, step.req.clt), step.req.xid, step.req.xidRep).0
      case Done(res) => rep.res == res
      case Forgotten => rep.res == Result(ATMOSTONCE_FAILURE, []) && step.req.clt != 0
      case _ => false
  {
    hide Check;
  }

  /** What a job produced or a window remembers is not a failure. */
  lemma ResultsAreNotFailures(sys: System, s: nat, c: nat, x: nat)
    requires Inv(sys) && x in Win(sys, s, c) && Win(sys, s, c)[x].Some?
    ensures Win(sys, s, c)[x].value.ret >= 0
  {
    assert WindowEntryOk(sys, s, c, x);
    var i :| 0 <= i < |sys.jobs| && Explains(sys.jobs[i], s, c, x, Win(sys, s, c)[x]);
    assert JobOk(sys, sys.jobs[i]);
  }

  lemma NewReplyIsExplained(sys: System, step: Step, rep: Reply)
    requires Inv(sys) && Enabled(sys, step) && rep in Apply(sys, step).replies && rep !in sys.replies
    ensures Explained(Apply(sys, step), rep)
    ensures rep.res == Result(ATMOSTONCE_FAILURE, []) ==>
      step.Deliver? && rep.clt != 0 && Check(Win(sys, step.s, rep.clt), rep.xid, 0).0 == Forgotten
  {
    NewReplies(sys, step, rep);
    StepGrows(sys, step);
    if step.SendReply? {
      assert JobOk(sys, sys.jobs[step.j]);
    } else {
      var q, w := step.req, Win(sys, step.s, step.req.clt);
      ForgottenIsTooOld(w, q.xid, q.xidRep);
      ForgottenIsTooOld(w, q.xid, 0);
      if q.xid in w && w[q.xid].Some? {
        ResultsAreNotFailures(sys, step.s, q.clt, q.xid);
      }
      assert q.srv != 0 ==> q in Apply(sys, step).requests && IsCall(q, rep.clt, rep.xid);
    }
  }

  /** In every run, a failure on the wire is "old instance", and then the call was addressed to an
      instance, or "forgotten". */
  lemma {:induction false} FailuresAreExplained(steps: seq<Step>, rep: Reply)
    requires rep in Run(steps).replies
    ensures Explained(Run(steps), rep)
  {
    if steps != [] {
      var sys, step := Run(steps[..|steps| - 1]), steps[|steps| - 1];
      RunKeepsInv(steps[..|steps| - 1]);
      if Enabled(sys, step) {
        StepGrows(sys, step);
        if rep in sys.replies {
          FailuresAreExplained(steps[..|steps| - 1], rep);
        } else {
          NewReplyIsExplained(sys, step, rep);
        }
      } else {
        FailuresAreExplained(steps[..|steps| - 1], rep);
      }
    }
  }

  /** A client that binds once and finishes only accepted calls is sent "forgotten" only for calls that
      it has finished, so that no call of it that waits can take that failure. */
  lemma {:induction false} NoFalseFailure(steps: seq<Step>, c: nat, x: nat)
    requires c != 0 && forall n :: 0 <= n <= |steps| ==> Tame(Run(steps[..n]), c)
    requires Reply(c, x, Result(ATMOSTONCE_FAILURE, [])) in Run(steps).replies
    ensures c in Run(steps).clients && x in Run(steps).clients[c].finished
  {
    if steps != [] {
      var before, step := steps[..|steps| - 1], steps[|steps| - 1];
      var sys, rep := Run(before), Reply(c, x, Result(ATMOSTONCE_FAILURE, []));
      forall n | 0 <= n <= |before| ensures Tame(Run(before[..n]), c) {
        assert before[..n] == steps[..n];
      }
      RunKeepsInv(before);
      if Enabled(sys, step) {
        StepGrows(sys, step);
        if rep in sys.replies {
          NoFalseFailure(before, c, x);
        } else {
          NewReplyIsExplained(sys, step, rep);
          NoFalseForgotten(before, c);
        }
      } else {
        NoFalseFailure(before, c, x);
      }
    }
  }

  // ---------------------------------------------------------------- the first reply counts

  /** How a call stands that has taken the result `r`. */
  predicate Holds(k: Client, x: nat, r: Result) {
    && x < k.next
    && if x in k.calls then k.calls[x] == Some(r) else x in k.returned && k.returned[x] == r
  }

  ghost predicate Settled(sys: System, c: nat, x: nat, r: Result) {
    c in sys.clients && Holds(sys.clients[c], x, r)
  }

  /** The steps of the system, seen from one client. */
  datatype ClientMove = Stay | Begins | Takes(x: nat, res: Result) | Ends(x: nat) | Binds(s: nat) | Cancels

  function Move(sys: System, step: Step, c: nat): ClientMove
    requires Enabled(sys, step)
  {
    match step
    case Begin(d, _) => if c == d then Begins else Stay
    case GotReply(rep) => if c == rep.clt then Takes(rep.xid, rep.res) else Stay
    case End(d, x) => if c == d then Ends(x) else Stay
    case BindDone(d, x) => if c == d then Binds(sys.clients[d].returned[x].data[0]) else Stay
    case Cancel(d) => if c == d then Cancels else Stay
    case _ => Stay
  }

  function Moved(k: Client, move: ClientMove): Client
    requires move.Ends? ==> move.x in k.calls
  {
    match move
    case Stay => k
    case Begins => ClientBegin(k)
    case Takes(x, res) => ClientGotReply(k, x, res)
    case Ends(x) => ClientEnd(k, x)
    case Binds(s) => ClientBindDone(k, s)
    case Cancels => ClientCancel(k)
  }

  lemma ClientMoves(sys: System, step: Step, c: nat)
    requires Enabled(sys, step) && c in sys.clients
    ensures var move := Move(sys, step, c); (move.Ends? ==> move.x in sys.clients[c].calls)
    ensures c in Apply(sys, step).clients && Apply(sys, step).clients[c] == Moved(sys.clients[c], Move(sys, step, c))
  {
  }

  lemma MoveKeepsHolds(k: Client, move: ClientMove, x: nat, r: Result)
    requires Holds(k, x, r) && (move.Ends? ==> move.x in k.calls)
    requires move.Cancels? ==> r == Result(CANCEL_FAILURE, [])
    ensures Holds(Moved(k, move), x, r)
  {
  }

  lemma StepKeepsSettled(sys: System, step: Step, c: nat, x: nat, r: Result)
    requires Settled(sys, c, x, r) && Enabled(sys, step)
    requires step == Cancel(c) ==> r == Result(CANCEL_FAILURE, [])
    ensures Settled(Apply(sys, step), c, x, r)
  {
    ClientMoves(sys, step, c);
    assert Move(sys, step, c).Cancels? ==> step == Cancel(c);
    hide Apply, Moved, Holds;
    MoveKeepsHolds(sys.clients[c], Move(sys, step, c), x, r);
  }

  predicate NoCancel(steps: seq<Step>, c: nat) {
    forall i :: 0 <= i < |steps| ==> steps[i] != Cancel(c)
  }

  lemma Extended(steps: seq<Step>, more: seq<Step>)
    requires more != []
    ensures var n := |more| - 1; var sys := Run(steps + more[..n]);
      Run(steps + more) == if Enabled(sys, more[n]) then Apply(sys, more[n]) else sys
  {
    var n := |more| - 1;
    assert (steps + more)[..|steps + more| - 1] == steps + more[..n];
  }

  /** Once a call has taken a reply, no later reply changes it: whatever happens, short of a cancel, the
      call holds that reply until it returns it. */
  lemma {:induction false} TakenReplyStays(steps: seq<Step>, more: seq<Step>, c: nat, x: nat, r: Result)
    requires Settled(Run(steps), c, x, r) && (NoCancel(more, c) || r == Result(CANCEL_FAILURE, []))
    ensures Settled(Run(steps + more), c, x, r)
    decreases |more|
  {
    if more == [] {
      assert steps + more == steps;
    } else {
      var n := |more| - 1;
      TakenReplyStays(steps, more[..n], c, x, r);
      Extended(steps, more);
      hide Run, Apply, Enabled, Settled;
      if Enabled(Run(steps + more[..n]), more[n]) {
        StepKeepsSettled(Run(steps + more[..n]), more[n], c, x, r);
      }
    }
  }

  /** A call that waits takes the reply that arrives, and a call that ends without one times out. */
  lemma WaitingTakesReply(steps: seq<Step>, c: nat, x: nat, r: Result)
    requires c in Run(steps).clients && x in Run(steps).clients[c].calls && Run(steps).clients[c].calls[x] == None
    ensures Reply(c, x, r) in Run(steps).replies ==> Settled(Run(steps + [GotReply(Reply(c, x, r))]), c, x, r)
    ensures Settled(Run(steps + [End(c, x)]), c, x, Result(TIMEOUT_FAILURE, []))
  {
    RunKeepsInv(steps);
    assert ClientOk(Run(steps), c);
    if Reply(c, x, r) in Run(steps).replies {
      RunExtends(steps, GotReply(Reply(c, x, r)));
    }
    RunExtends(steps, End(c, x));
  }

  /** A call that has taken a reply and ends has returned it. */
  lemma EndReturns(steps: seq<Step>, c: nat, x: nat, r: Result)
    requires c in Run(steps).clients && x in Run(steps).clients[c].calls && Run(steps).clients[c].calls[x] == Some(r)
    ensures var k := Run(steps + [End(c, x)]).clients;
      c in k && x !in k[c].calls && x in k[c].returned && k[c].returned[x] == r && x in k[c].finished
  {
    RunExtends(steps, End(c, x));
  }

  // ---------------------------------------------------------------- cancelling

  /** Cancelling fails every outstanding call, for good, and closes the client exactly if there was one. */
  lemma CancelFailsCalls(steps: seq<Step>, more: seq<Step>, c: nat, x: nat)
    requires c in Run(steps).clients && x in Run(steps).clients[c].calls
    ensures Settled(Run(steps + [Cancel(c)] + more), c, x, Result(CANCEL_FAILURE, []))
    ensures c in Run(steps + [Cancel(c)]).clients && Run(steps + [Cancel(c)]).clients[c].closing
  {
    RunKeepsInv(steps);
    assert ClientOk(Run(steps), c);
    RunExtends(steps, Cancel(c));
    TakenReplyStays(steps + [Cancel(c)], more, c, x, Result(CANCEL_FAILURE, []));
  }

  lemma CancelOfIdleClient(steps: seq<Step>, c: nat)
    requires c in Run(steps).clients && Run(steps).clients[c].calls == map[]
    ensures Run(steps + [Cancel(c)]) == Run(steps)
  {
    RunExtends(steps, Cancel(c));
    var sys, sys' := Run(steps), Run(steps + [Cancel(c)]);
    assert sys'.clients[c].calls == map[];
    assert sys'.clients == sys.clients;
  }

  ghost predicate ClosedSince(sys: System, sys': System, c: nat) {
    && c in sys.clients && c in sys'.clients && sys'.clients[c].closing
    && sys'.clients[c].next == sys.clients[c].next
    && forall q :: q in sys'.requests && q.clt == c ==> q in sys.requests
  }

  lemma StepKeepsClosed(sys0: System, sys: System, step: Step, c: nat)
    requires ClosedSince(sys0, sys, c) && Enabled(sys, step)
    ensures ClosedSince(sys0, Apply(sys, step), c)
  {
  }

  /** A client that is closing stays closing and starts no call any more, whatever is tried. */
  lemma {:induction false} ClosedClientRefuses(steps: seq<Step>, more: seq<Step>, c: nat)
    requires c in Run(steps).clients && Run(steps).clients[c].closing
    ensures ClosedSince(Run(steps), Run(steps + more), c)
    decreases |more|
  {
    if more == [] {
      assert steps + more == steps;
    } else {
      var n := |more| - 1;
      ClosedClientRefuses(steps, more[..n], c);
      Extended(steps, more);
      hide Run, Apply, Enabled, ClosedSince;
      if Enabled(Run(steps + more[..n]), more[n]) {
        StepKeepsClosed(Run(steps), Run(steps + more[..n]), more[n], c);
      }
    }
  }

  // ---------------------------------------------------------------- binding

  ghost predicate BoundOk(sys: System, c: nat) {
    c in sys.clients && sys.clients[c].bound ==>
      exists i :: 0 <= i < |sys.jobs| && RanBind(sys.jobs[i], c, sys.clients[c].srv)
  }

  predicate RanBind(job: Job, c: nat, s: nat) {
    job.srv == s && job.req.clt == c && job.req.proc == BIND && HasResult(job.phase, Result(0, [s]))
  }

  lemma StepKeepsBoundOk(sys: System, step: Step, c: nat)
    requires Inv(sys) && BoundOk(sys, c) && Enabled(sys, step)
    ensures BoundOk(Apply(sys, step), c)
  {
    var sys' := Apply(sys, step);
    if c in sys'.clients && sys'.clients[c].bound {
      if step.BindDone? && step.c == c {
        BindDoneBinds(sys, c, step.xid);
      } else {
        StepGrows(sys, step);
        BoundStays(sys, step, c);
        var i :| 0 <= i < |sys.jobs| && RanBind(sys.jobs[i], c, sys.clients[c].srv);
        ResultsStay(sys, step, i);
        hide Inv, Apply, Enabled;
        assert RanBind(sys'.jobs[i], c, sys'.clients[c].srv);
      }
    }
  }

  lemma BoundStays(sys: System, step: Step, c: nat)
    requires Enabled(sys, step) && c in sys.clients && !(step.BindDone? && step.c == c)
    ensures c in Apply(sys, step).clients && Apply(sys, step).clients[c].srv == sys.clients[c].srv
  {
    ClientMoves(sys, step, c);
    hide Apply;
  }

  /** A job keeps its request and, once it has one, its result. */
  lemma ResultsStay(sys: System, step: Step, i: nat)
    requires Enabled(sys, step) && i < |sys.jobs|
    ensures i < |Apply(sys, step).jobs| && Apply(sys, step).jobs[i].req == sys.jobs[i].req
    ensures Apply(sys, step).jobs[i].srv == sys.jobs[i].srv
    ensures forall res :: HasResult(sys.jobs[i].phase, res) ==> HasResult(Apply(sys, step).jobs[i].phase, res)
  {
  }

  lemma BindDoneBinds(sys: System, c: nat, x: nat)
    requires Inv(sys) && Enabled(sys, BindDone(c, x))
    ensures BoundOk(Apply(sys, BindDone(c, x)), c)
  {
    var q :| q in sys.requests && q.clt == c && q.xid == x && q.proc == BIND;
    var res := sys.clients[c].returned[x];
    assert ResultsOk(sys, c) && HasJob(sys, c, x, res);
    BindNonce(sys, c, q, res);
    var i :| 0 <= i < |sys.jobs| && Answered(sys.jobs[i], c, x, res) && sys.jobs[i].srv == res.data[0];
    assert JobOk(sys, sys.jobs[i]) && SameCall(q, sys.jobs[i].req);
    assert res == Result(0, [res.data[0]]);
    assert RanBind(sys.jobs[i], c, res.data[0]);
  }

  /** In every run, a bound client is bound to an instance that executed its bind call. */
  lemma {:induction false} BoundWhereBindRan(steps: seq<Step>, c: nat)
    ensures BoundOk(Run(steps), c)
  {
    if steps != [] {
      var sys, step := Run(steps[..|steps| - 1]), steps[|steps| - 1];
      BoundWhereBindRan(steps[..|steps| - 1], c);
      RunKeepsInv(steps[..|steps| - 1]);
      hide Inv, BoundOk;
      if Enabled(sys, step) {
        StepKeepsBoundOk(sys, step, c);
      }
    }
  }

  // ---------------------------------------------------------------- calls can be completed

  /** Call `x` of client `c` has returned `r`. */
  ghost predicate Returned(sys: System, c: nat, x: nat, r: Result) {
    c in sys.clients && x !in sys.clients[c].calls && x in sys.clients[c].returned && sys.clients[c].returned[x] == r
  }

  /** Client `c` waits for call `x`, which job `j` is at work on. */
  ghost predicate WaitsFor(sys: System, j: nat, c: nat, x: nat) {
    && j < |sys.jobs| && sys.jobs[j].req.clt == c && sys.jobs[j].req.xid == x
    && c in sys.clients && x in sys.clients[c].calls && sys.clients[c].calls[x] == None
  }

  function Remaining(phase: Phase): nat {
    match phase
    case Accepted => 3
    case Executed(_) => 2
    case Recorded(_) => 1
    case Sent(_) => 0
  }

  /** The next step of a job brings it closer to being sent. */
  lemma JobAdvances(steps: seq<Step>, j: nat, c: nat, x: nat, res: Result) returns (step: Step)
    requires WaitsFor(Run(steps), j, c, x) && !Run(steps).jobs[j].phase.Sent?
    requires var job := Run(steps).jobs[j];
      if job.phase.Accepted? then HandlerResult(job.srv, job.req, res) else job.phase.res == res
    ensures WaitsFor(Run(steps + [step]), j, c, x)
    ensures var phase := Run(steps + [step]).jobs[j].phase;
      !phase.Accepted? && phase.res == res && Remaining(phase) < Remaining(Run(steps).jobs[j].phase)
  {
    step := match Run(steps).jobs[j].phase
            case Accepted => Execute(j, res)
            case Executed(_) => AddReply(j)
            case _ => SendReply(j);
    RunExtends(steps, step);
  }

  lemma SentCallReturns(steps: seq<Step>, j: nat, c: nat, x: nat, res: Result)
    requires WaitsFor(Run(steps), j, c, x) && Run(steps).jobs[j].phase == Sent(res)
    ensures Returned(Run(steps + [GotReply(Reply(c, x, res)), End(c, x)]), c, x, res)
  {
    var got := GotReply(Reply(c, x, res));
    SentIsOnTheWire(steps, j, res);
    RunExtends(steps, got);
    EndReturns(steps + [got], c, x, res);
    assert steps + [got, End(c, x)] == steps + [got] + [End(c, x)];
  }

  /** From every reachable state: a call that waits and that some instance has accepted can be
      completed, and then returns what its handler produced or is made to produce. */
  lemma {:induction false} AcceptedCallCompletes(steps: seq<Step>, j: nat, c: nat, x: nat, res: Result) returns (more: seq<Step>)
    requires WaitsFor(Run(steps), j, c, x)
    requires var job := Run(steps).jobs[j];
      if job.phase.Accepted? then HandlerResult(job.srv, job.req, res) else job.phase.res == res
    ensures Returned(Run(steps + more), c, x, res)
    decreases Remaining(Run(steps).jobs[j].phase)
  {
    if Run(steps).jobs[j].phase.Sent? {
      SentCallReturns(steps, j, c, x, res);
      more := [GotReply(Reply(c, x, res)), End(c, x)];
    } else {
      var step := JobAdvances(steps, j, c, x, res);
      hide Run, WaitsFor, Returned, HandlerResult;
      var rest := AcceptedCallCompletes(steps + [step], j, c, x, res);
      more := [step] + rest;
      assert steps + more == steps + [step] + rest;
    }
  }

  /** An instance has never seen a call that has not been started. */
  lemma FreshIsNew(sys: System, s: nat, c: nat)
    requires Inv(sys) && c in sys.clients
    ensures sys.clients[c].next !in Win(sys, s, c) && !TooOld(Win(sys, s, c), sys.clients[c].next)
  {
    forall x | x in Win(sys, s, c) ensures x < sys.clients[c].next {
      assert WindowEntryOk(sys, s, c, x);
      var i :| 0 <= i < |sys.jobs| && Explains(sys.jobs[i], s, c, x, Win(sys, s, c)[x]);
      assert JobOk(sys, sys.jobs[i]) && RequestOk(sys, sys.jobs[i].req);
    }
  }

  lemma BeginWaits(steps: seq<Step>, c: nat, s: nat, proc: nat)
    requires c in Run(steps).clients && MayBegin(Run(steps).clients[c], proc) && s in Run(steps).servers
    requires proc == BIND || Run(steps).clients[c].srv == s
    ensures var sys := Run(steps + [Begin(c, proc)]); var q := Stamp(c, Run(steps).clients[c], proc);
      && q in sys.requests && (q.srv == 0 || q.srv == s) && s in sys.servers
      && q.xid !in Win(sys, s, c) && !TooOld(Win(sys, s, c), q.xid)
      && c in sys.clients && q.xid in sys.clients[c].calls && sys.clients[c].calls[q.xid] == None
  {
    RunKeepsInv(steps);
    FreshIsNew(Run(steps), s, c);
    assert ClientOk(Run(steps), c);
    RunExtends(steps, Begin(c, proc));
  }

  lemma DeliverKeepsCalls(steps: seq<Step>, s: nat, q: Request)
    requires s in Run(steps).servers && q in Run(steps).requests
    ensures Run(steps + [Deliver(s, q)]).clients == Run(steps).clients
  {
    RunExtends(steps, Deliver(s, q));
  }

  /** A call that is started and delivered to the instance it is meant for has a job there. */
  lemma FreshCallIsAccepted(steps: seq<Step>, c: nat, s: nat, proc: nat)
    requires c in Run(steps).clients && MayBegin(Run(steps).clients[c], proc) && s in Run(steps).servers
    requires proc == BIND || Run(steps).clients[c].srv == s
    ensures var q := Stamp(c, Run(steps).clients[c], proc);
      var sys := Run(steps + [Begin(c, proc)] + [Deliver(s, q)]); var j := |Run(steps + [Begin(c, proc)]).jobs|;
      WaitsFor(sys, j, c, Run(steps).clients[c].next) && sys.jobs[j] == Job(s, q, Accepted)
      && q in Run(steps + [Begin(c, proc)]).requests
  {
    var q := Stamp(c, Run(steps).clients[c], proc);
    BeginWaits(steps, c, s, proc);
    assert q.clt == c && q.xid == Run(steps).clients[c].next;
    hide Run, Stamp;
    DeliveryIsAnswered(steps + [Begin(c, proc)], s, q);
    DeliverKeepsCalls(steps + [Begin(c, proc)], s, q);
  }

  /** From every reachable state: a client that may start a call, bound to a live instance or about to
      bind, can complete it, with any result that the handler may produce. */
  lemma FreshCallCompletes(steps: seq<Step>, c: nat, s: nat, proc: nat, res: Result) returns (more: seq<Step>)
    requires c in Run(steps).clients && MayBegin(Run(steps).clients[c], proc) && s in Run(steps).servers
    requires proc == BIND || Run(steps).clients[c].srv == s
    requires HandlerResult(s, Stamp(c, Run(steps).clients[c], proc), res)
    ensures Returned(Run(steps + more), c, Run(steps).clients[c].next, res)
    ensures Stamp(c, Run(steps).clients[c], proc) in Run(steps + more).requests
  {
    hide Run, Stamp, HandlerResult, Returned, MayBegin, WaitsFor;
    var q := Stamp(c, Run(steps).clients[c], proc);
    var begun := steps + [Begin(c, proc)];
    var delivered := begun + [Deliver(s, q)];
    FreshCallIsAccepted(steps, c, s, proc);
    var rest := AcceptedCallCompletes(delivered, |Run(begun).jobs|, c, Run(steps).clients[c].next, res);
    RequestsStay(begun, [Deliver(s, q)] + rest);
    more := [Begin(c, proc), Deliver(s, q)] + rest;
    assert begun + ([Deliver(s, q)] + rest) == delivered + rest == steps + more;
  }

  /** What was sent stays on the way. */
  lemma {:induction false} RequestsStay(steps: seq<Step>, more: seq<Step>)
    ensures Run(steps).requests <= Run(steps + more).requests
    decreases |more|
  {
    if more == [] {
      assert steps + more == steps;
    } else {
      var n := |more| - 1;
      RequestsStay(steps, more[..n]);
      Extended(steps, more);
      if Enabled(Run(steps + more[..n]), more[n]) {
        StepGrows(Run(steps + more[..n]), more[n]);
      }
    }
  }

  /** From every reachable state: a client that is not bound and not closing can bind to any live
      instance. */
  lemma ClientCanBind(steps: seq<Step>, c: nat, s: nat) returns (more: seq<Step>)
    requires c in Run(steps).clients && !Run(steps).clients[c].bound && !Run(steps).clients[c].closing
    requires s in Run(steps).servers
    ensures c in Run(steps + more).clients && Run(steps + more).clients[c].bound && Run(steps + more).clients[c].srv == s
  {
    var q := Stamp(c, Run(steps).clients[c], BIND);
    var first := FreshCallCompletes(steps, c, s, BIND, Result(0, [s]));
    assert q.clt == c && q.xid == Run(steps).clients[c].next && q.proc == BIND;
    hide Run, Stamp;
    var done := BindDone(c, q.xid);
    RunExtends(steps + first, done);
    more := first + [done];
    assert steps + more == steps + first + [done];
  }

  // ---------------------------------------------------------------- acknowledging and forgetting

  /** Calls are numbered one after the other, and a new request acknowledges all that is finished without a
      gap, and no more. */
  lemma StampIsExact(steps: seq<Step>, c: nat, proc: nat)
    requires c in Run(steps).clients && MayBegin(Run(steps).clients[c], proc)
    ensures var k := Run(steps).clients[c]; var q := Stamp(c, k, proc);
      && q in Run(steps + [Begin(c, proc)]).requests && q.xid == k.next
      && c in Run(steps + [Begin(c, proc)]).clients && Run(steps + [Begin(c, proc)]).clients[c].next == q.xid + 1
      && (forall y: nat :: y <= q.xidRep ==> y in k.finished) && q.xidRep + 1 !in k.finished
  {
    RunKeepsInv(steps);
    assert ClientOk(Run(steps), c);
    AcknowledgesFront(Run(steps).clients[c], c, proc);
    hide Inv, Run, Stamp, ClientOk;
    RunExtends(steps, Begin(c, proc));
  }

  lemma AcknowledgesFront(k: Client, c: nat, proc: nat)
    requires 0 in k.finished
    ensures var q := Stamp(c, k, proc);
      q.xid == k.next && (forall y: nat :: y <= q.xidRep ==> y in k.finished) && q.xidRep + 1 !in k.finished
  {
  }

  /** Every reply acknowledges its call, whether or not anybody waits for it. */
  lemma EveryReplyAcknowledges(steps: seq<Step>, rep: Reply)
    requires rep in Run(steps).replies && rep.clt in Run(steps).clients
    ensures rep.clt in Run(steps + [GotReply(rep)]).clients
    ensures rep.xid in Run(steps + [GotReply(rep)]).clients[rep.clt].finished
  {
    RunExtends(steps, GotReply(rep));
  }

  /** Accepting a request leaves the instance with exactly the calls that it remembered and that the
      request does not acknowledge, and the new one. */
  lemma AcceptingForgetsAcknowledged(steps: seq<Step>, s: nat, c: nat, step: Step)
    requires c != 0 && Accepts(Run(steps), step, s, c)
    ensures forall x :: x in Win(Run(steps + [step]), s, c) <==>
      x == step.req.xid || (x in Win(Run(steps), s, c) && x >= step.req.xidRep)
  {
    RunKeepsInv(steps);
    assert RequestOk(Run(steps), step.req);
    RunExtends(steps, step);
    WinAfterDispatch(Run(steps), s, step.req, s, c);
  }
}
