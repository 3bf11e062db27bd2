/** What the at-most-once protocol guarantees in every run. */
module RpcTheorems {
  import opened RpcTypes
  import opened XidWindow
  import opened ReplyWindow
  import opened RpcProtocol

  predicate IsCall(q: Request, c: nat, x: nat) {
    q.clt == c && q.xid == x
  }

  // ---------------------------------------------------------------- at most once

  /** However messages are lost, repeated and reordered, and however dispatch threads interleave, an
      instance accepts a call at most once; afterwards the call is remembered or too old for good. */
  lemma AcceptedAtMostOnce(steps: seq<Step>, i: nat, j: nat)
    requires i < |Run(steps).jobs| && j < |Run(steps).jobs|
    requires Run(steps).jobs[i].req.clt != 0
    requires Run(steps).jobs[i].srv == Run(steps).jobs[j].srv
    requires SameCall(Run(steps).jobs[i].req, Run(steps).jobs[j].req)
    ensures i == j
    ensures var q := Run(steps).jobs[i].req;
            var w := Win(Run(steps), Run(steps).jobs[i].srv, q.clt);
            q.xid in w || TooOld(w, q.xid)
  {
    RunKeepsInv(steps);
    assert JobOk(Run(steps), Run(steps).jobs[i]);
  }

  /** Over all instances together, a call other than bind is accepted at most once, and only by the
      instance that its client was bound to. */
  lemma AcceptedAtMostOnceAcrossRestarts(steps: seq<Step>, i: nat, j: nat)
    requires i < |Run(steps).jobs| && j < |Run(steps).jobs|
    requires Run(steps).jobs[i].req.clt != 0 && Run(steps).jobs[i].req.proc != BIND
    requires SameCall(Run(steps).jobs[i].req, Run(steps).jobs[j].req)
    ensures i == j && Run(steps).jobs[i].srv == Run(steps).jobs[i].req.srv
  {
    RunKeepsInv(steps);
    var sys := Run(steps);
    assert JobOk(sys, sys.jobs[i]) && JobOk(sys, sys.jobs[j]);
    assert RequestOk(sys, sys.jobs[i].req);
    assert sys.jobs[i].req == sys.jobs[j].req;
  }

  // ---------------------------------------------------------------- counting handler executions

  /** Which executions to count: those of call `x` of client `c`, anywhere or at one instance. */
  datatype Which = Anywhere(c: nat, x: nat) | AtInstance(s: nat, c: nat, x: nat)

  predicate Matches(job: Job, w: Which) {
    IsCall(job.req, w.c, w.x) && (w.AtInstance? ==> job.srv == w.s)
  }

  predicate Executes(sys: System, step: Step, w: Which) {
    Enabled(sys, step) && step.Execute? && Matches(sys.jobs[step.j], w)
  }

  /** How many times, during a run, a handler was executed. */
  function Executions(steps: seq<Step>, w: Which): nat {
    if steps == [] then 0
    else
      var before, step := steps[..|steps| - 1], steps[|steps| - 1];
      Executions(before, w) + if Executes(Run(before), step, w) then 1 else 0
  }

  predicate Ran(job: Job, w: Which) {
    Matches(job, w) && !job.phase.Accepted?
  }

  function CountRan(jobs: seq<Job>, w: Which): nat {
    if jobs == [] then 0
    else CountRan(jobs[..|jobs| - 1], w) + if Ran(jobs[|jobs| - 1], w) then 1 else 0
  }

  lemma {:induction false} CountAfterUpdate(jobs: seq<Job>, j: nat, job: Job, w: Which)
    requires j < |jobs|
    ensures CountRan(jobs[j := job], w) + (if Ran(jobs[j], w) then 1 else 0)
         == CountRan(jobs, w) + (if Ran(job, w) then 1 else 0)
  {
    var n := |jobs| - 1;
    if j < n {
      assert jobs[j := job][..n] == jobs[..n][j := job];
      CountAfterUpdate(jobs[..n], j, job, w);
    } else {
      assert jobs[j := job][..n] == jobs[..n];
    }
  }

  lemma CountAfterAppend(jobs: seq<Job>, job: Job, w: Which)
    ensures CountRan(jobs + [job], w) == CountRan(jobs, w) + (if Ran(job, w) then 1 else 0)
  {
    assert (jobs + [job])[..|jobs|] == jobs;
  }

  lemma StepIsCounted(sys: System, step: Step, w: Which)
    requires Enabled(sys, step)
    ensures CountRan(Apply(sys, step).jobs, w) == CountRan(sys.jobs, w) + if Executes(sys, step, w) then 1 else 0
  {
    hide CountRan;
    match step
    case Deliver(s, q) => CountAfterAppend(sys.jobs, Job(s, q, Accepted), w);
    case Execute(j, res) => CountAfterUpdate(sys.jobs, j, sys.jobs[j].(phase := Executed(res)), w);
    case AddReply(j) => CountAfterUpdate(sys.jobs, j, sys.jobs[j].(phase := Recorded(sys.jobs[j].phase.res)), w);
    case SendReply(j) => CountAfterUpdate(sys.jobs, j, sys.jobs[j].(phase := Sent(sys.jobs[j].phase.res)), w);
    case _ =>
  }

  lemma {:induction false} ExecutionsAreCounted(steps: seq<Step>, w: Which)
    ensures Executions(steps, w) == CountRan(Run(steps).jobs, w)
  {
    if steps != [] {
      var before, step := steps[..|steps| - 1], steps[|steps| - 1];
      ExecutionsAreCounted(before, w);
      hide Enabled, Apply, CountRan;
      if Enabled(Run(before), step) {
        StepIsCounted(Run(before), step, w);
      }
    }
  }

  ghost predicate AtMostOneMatches(jobs: seq<Job>, w: Which) {
    forall i, j :: 0 <= i < j < |jobs| ==> !Matches(jobs[i], w) || !Matches(jobs[j], w)
  }

  /** With at most one candidate, the count is at most one, and one exactly if the candidate ran. */
  lemma {:induction false} CountOfUnique(jobs: seq<Job>, w: Which)
    requires AtMostOneMatches(jobs, w)
    ensures CountRan(jobs, w) <= 1
    ensures CountRan(jobs, w) == 1 <==> exists i :: 0 <= i < |jobs| && Ran(jobs[i], w)
  {
    if jobs != [] {
      var n := |jobs| - 1;
      CountOfUnique(jobs[..n], w);
      if i :| 0 <= i < |jobs| && Ran(jobs[i], w) && i < n {
        assert Ran(jobs[..n][i], w);
      }
    }
  }

  /** Calls of clients that ask for at-most-once service; over all instances together, all but bind. */
  ghost predicate Protected(sys: System, w: Which) {
    && w.c != 0
    && (w.Anywhere? ==> forall q :: q in sys.requests && IsCall(q, w.c, w.x) ==> q.proc != BIND)
  }

  lemma ProtectedIsUnique(steps: seq<Step>, w: Which)
    requires Protected(Run(steps), w)
    ensures AtMostOneMatches(Run(steps).jobs, w)
  {
    var jobs := Run(steps).jobs;
    RunKeepsInv(steps);
    forall i, j | 0 <= i < j < |jobs|
      ensures !Matches(jobs[i], w) || !Matches(jobs[j], w)
    {
      if Matches(jobs[i], w) && Matches(jobs[j], w) {
        assert JobOk(Run(steps), jobs[i]);
        hide Run, Inv, JobOk;
        if w.Anywhere? {
          AcceptedAtMostOnceAcrossRestarts(steps, i, j);
        } else {
          AcceptedAtMostOnce(steps, i, j);
        }
      }
    }
  }

  /** In every run the handler of a call is executed at most once: a bind at most once at each
      instance, any other call at most once over all instances. */
  lemma ExecutedAtMostOnce(steps: seq<Step>, w: Which)
    requires Protected(Run(steps), w)
    ensures Executions(steps, w) <= 1
  {
    ProtectedIsUnique(steps, w);
    ExecutionsAreCounted(steps, w);
    CountOfUnique(Run(steps).jobs, w);
  }

  lemma OneRanOnce(steps: seq<Step>, w: Which, i: nat)
    requires Protected(Run(steps), w)
    requires i < |Run(steps).jobs| && Ran(Run(steps).jobs[i], w)
    ensures Executions(steps, w) == 1
    ensures forall j :: 0 <= j < |Run(steps).jobs| && Matches(Run(steps).jobs[j], w) ==> j == i
  {
    ProtectedIsUnique(steps, w);
    ExecutionsAreCounted(steps, w);
    CountOfUnique(Run(steps).jobs, w);
  }

  /** A job that produced what a successful call returned. */
  lemma ReturnedHasJob(steps: seq<Step>, c: nat, x: nat) returns (i: nat)
    requires c in Run(steps).clients && x in Run(steps).clients[c].returned
    requires Run(steps).clients[c].returned[x].ret >= 0
    ensures i < |Run(steps).jobs| && Answered(Run(steps).jobs[i], c, x, Run(steps).clients[c].returned[x])
    ensures JobOk(Run(steps), Run(steps).jobs[i])
  {
    var sys := Run(steps);
    var res := sys.clients[c].returned[x];
    RunKeepsInv(steps);
    assert ResultsOk(sys, c) && HasJob(sys, c, x, res);
    i :| 0 <= i < |sys.jobs| && Answered(sys.jobs[i], c, x, res);
    assert JobOk(sys, sys.jobs[i]);
  }

  /** A call that returns a code that is not negative was executed exactly once, and what it returned
      is the result of that single execution. */
  lemma ExactlyOnceOnSuccess(steps: seq<Step>, c: nat, x: nat)
    requires Protected(Run(steps), Anywhere(c, x))
    requires c in Run(steps).clients && x in Run(steps).clients[c].returned
    requires Run(steps).clients[c].returned[x].ret >= 0
    ensures Executions(steps, Anywhere(c, x)) == 1
    ensures forall i :: 0 <= i < |Run(steps).jobs| && IsCall(Run(steps).jobs[i].req, c, x) ==>
              HasResult(Run(steps).jobs[i].phase, Run(steps).clients[c].returned[x])
  {
    hide Run, Protected, JobOk;
    var i := ReturnedHasJob(steps, c, x);
    OneRanOnce(steps, Anywhere(c, x), i);
    assert forall j :: 0 <= j < |Run(steps).jobs| && IsCall(Run(steps).jobs[j].req, c, x) ==>
        Matches(Run(steps).jobs[j], Anywhere(c, x));
  }

  /** A bind that succeeds returned the nonce of an instance, was executed exactly once at that
      instance, and returned what that execution produced. */
  lemma BindRanOnceWhereItBound(steps: seq<Step>, c: nat, x: nat, q: Request)
    requires c != 0 && q in Run(steps).requests && IsCall(q, c, x) && q.proc == BIND
    requires c in Run(steps).clients && x in Run(steps).clients[c].returned
    requires Run(steps).clients[c].returned[x].ret >= 0
    ensures var res := Run(steps).clients[c].returned[x];
      && res.ret == 0 && |res.data| == 1 && res.data[0] >= 0 && res.data[0] in Run(steps).servers
      && Executions(steps, AtInstance(res.data[0], c, x)) == 1
      && forall i :: 0 <= i < |Run(steps).jobs| && Matches(Run(steps).jobs[i], AtInstance(res.data[0], c, x)) ==>
           HasResult(Run(steps).jobs[i].phase, res)
  {
    var i := ReturnedHasJob(steps, c, x);
    var job := Run(steps).jobs[i];
    RunKeepsInv(steps);
    assert SameCall(q, job.req) && job.req == q;
    hide Run, Inv;
    OneRanOnce(steps, AtInstance(job.srv, c, x), i);
  }

  // ---------------------------------------------------------------- reply retention

  /** While the client still waits for an accepted call, every duplicate of the request is answered
      with "in progress" or with the recorded reply, which is the reply of the one execution. */
  lemma RepliesAreRetained(steps: seq<Step>, i: nat, xidRep: nat)
    requires i < |Run(steps).jobs| && Run(steps).jobs[i].req.clt in Run(steps).clients
    requires var q := Run(steps).jobs[i].req;
             var k := Run(steps).clients[q.clt];
             q.clt != 0 && q.xid in k.calls && k.calls[q.xid].None?
    ensures var job := Run(steps).jobs[i];
            match Check(Win(Run(steps), job.srv, job.req.clt), job.req.xid, xidRep).0
            case InProgress => job.phase.Accepted? || job.phase.Executed?
            case Done(res) => HasResult(job.phase, res)
            case _ => false
  {
    var sys := Run(steps);
    var s, c, x := sys.jobs[i].srv, sys.jobs[i].req.clt, sys.jobs[i].req.xid;
    RunKeepsInv(steps);
    assert ClientOk(sys, c) && JobOk(sys, sys.jobs[i]);
    assert WindowEntryOk(sys, s, c, x);
    var j :| 0 <= j < |sys.jobs| && Explains(sys.jobs[j], s, c, x, Win(sys, s, c)[x]);
    AcceptedAtMostOnce(steps, i, j);
  }

  // ---------------------------------------------------------------- false "forgotten", exactly

  /** The lowest call number that the client has not finished. */
  function Oldest(k: Client): nat {
    Front(k.finished) + 1
  }

  /** The instance answers "forgotten" to a call that the client has not finished. */
  ghost predicate FalselyForgets(sys: System, s: nat, c: nat) {
    c in sys.clients && exists y: nat :: y !in sys.clients[c].finished && Check(Win(sys, s, c), y, 0).0 == Forgotten
  }

  /** The step classifies a request of client `c` at instance `s` as new. */
  predicate Accepts(sys: System, step: Step, s: nat, c: nat) {
    && Enabled(sys, step) && step.Deliver? && step.s == s && step.req.clt == c
    && (step.req.srv == 0 || step.req.srv == s)
    && Check(Win(sys, s, c), step.req.xid, step.req.xidRep).0 == New
  }

  /** The client has an unfinished call older than the request, and of the calls that the request does
      not acknowledge the window remembers none that is as old as that one. */
  predicate Overtakes(sys: System, s: nat, q: Request) {
    && q.clt in sys.clients && Oldest(sys.clients[q.clt]) < q.xid
    && forall k :: k in Win(sys, s, q.clt) && q.xidRep <= k ==> Oldest(sys.clients[q.clt]) < k
  }

  /** What is too old after an acceptance. */
  lemma TooOldAfterNew(t: Table, x: nat, r: nat, y: nat)
    requires Check(t, x, r).0 == New && r <= x
    ensures TooOld(Check(t, x, r).1, y) <==> y < x && forall k :: k in t && r <= k ==> y < k
  {
    var t' := Check(t, x, r).1;
    assert x in t';
    assert forall k :: k in t && r <= k ==> k in t';
  }

  /** If anything unfinished is too old, the oldest unfinished call is. */
  lemma OldestDecides(k: Client, t: Table)
    requires 0 in k.finished
    ensures (exists y: nat :: y !in k.finished && TooOld(t, y)) <==> TooOld(t, Oldest(k))
  {
    var front := Front(k.finished);
    assert Oldest(k) !in k.finished;
    forall y: nat | y !in k.finished && TooOld(t, y)
      ensures Oldest(k) <= y
    {
      assert y <= front ==> y in k.finished;
    }
  }

  lemma ForgottenIsTooOld(t: Table, y: nat, r: nat)
    ensures Check(t, y, r).0 == Forgotten <==> TooOld(t, y)
  {
  }

  lemma FalselyForgetsIff(sys: System, s: nat, c: nat)
    requires Inv(sys) && c in sys.clients
    ensures FalselyForgets(sys, s, c) <==> TooOld(Win(sys, s, c), Oldest(sys.clients[c]))
  {
    assert ClientOk(sys, c);
    hide Inv, Check, TooOld, Oldest;
    OldestDecides(sys.clients[c], Win(sys, s, c));
    forall y: nat
      ensures Check(Win(sys, s, c), y, 0).0 == Forgotten <==> TooOld(Win(sys, s, c), y)
    {
      ForgottenIsTooOld(Win(sys, s, c), y, 0);
    }
  }

  /** Accepting a request makes the instance forget an unfinished call exactly when the request
      overtakes the oldest one. */
  lemma AcceptForgetsIff(sys: System, step: Step, s: nat, c: nat)
    requires Inv(sys) && c != 0 && Accepts(sys, step, s, c)
    ensures FalselyForgets(Apply(sys, step), s, c) <==> Overtakes(sys, s, step.req)
  {
    var q := step.req;
    assert RequestOk(sys, q);
    StepKeepsInv(sys, step);
    hide Inv;
    WinAfterDispatch(sys, s, q, s, c);
    FalselyForgetsIff(Apply(sys, step), s, c);
    TooOldAfterNew(Win(sys, s, c), q.xid, q.xidRep, Oldest(sys.clients[c]));
  }

  /** The keys that an instance remembers for a client change only when it accepts a call of that client. */
  lemma OtherStepsForgetNothing(sys: System, step: Step, s: nat, c: nat)
    requires Inv(sys) && Enabled(sys, step) && c != 0 && !Accepts(sys, step, s, c)
    requires FalselyForgets(Apply(sys, step), s, c)
    ensures FalselyForgets(sys, s, c)
  {
    var sys' := Apply(sys, step);
    var y: nat :| y !in sys'.clients[c].finished && Check(Win(sys', s, c), y, 0).0 == Forgotten;
    ForgottenIsTooOld(Win(sys', s, c), y, 0);
    ForgottenIsTooOld(Win(sys, s, c), y, 0);
    StepGrows(sys, step);
    AgeOnlyFromAccepting(sys, step, s, c, y);
    WindowsHaveClients(sys, s, c, y);
  }

  lemma AgeOnlyFromAccepting(sys: System, step: Step, s: nat, c: nat, y: nat)
    requires Enabled(sys, step) && c != 0 && !Accepts(sys, step, s, c)
    requires TooOld(Win(Apply(sys, step), s, c), y)
    ensures TooOld(Win(sys, s, c), y)
  {
    StepGrows(sys, step);
    if step.Deliver? {
      WinAfterDispatch(sys, step.s, step.req, s, c);
    } else if step.AddReply? {
      AgeSurvivesRecord(Win(sys, s, c), sys.jobs[step.j].req.xid, sys.jobs[step.j].phase.res, y);
    }
  }

  lemma WindowsHaveClients(sys: System, s: nat, c: nat, y: nat)
    requires Inv(sys) && TooOld(Win(sys, s, c), y)
    ensures c in sys.clients
  {
    var x :| x in Win(sys, s, c);
    assert WindowEntryOk(sys, s, c, x);
    var i :| 0 <= i < |sys.jobs| && Explains(sys.jobs[i], s, c, x, Win(sys, s, c)[x]);
    assert JobOk(sys, sys.jobs[i]);
  }

  ghost predicate ForgetsAt(steps: seq<Step>, n: nat, s: nat, c: nat)
    requires n <= |steps|
  {
    FalselyForgets(Run(steps[..n]), s, c)
  }

  ghost predicate OvertakesAt(steps: seq<Step>, n: nat, s: nat, c: nat)
    requires n < |steps|
  {
    Accepts(Run(steps[..n]), steps[n], s, c) && Overtakes(Run(steps[..n]), s, steps[n].req)
  }

  lemma RunStep(steps: seq<Step>, n: nat)
    requires n < |steps|
    ensures Run(steps[..n + 1]) ==
      if Enabled(Run(steps[..n]), steps[n]) then Apply(Run(steps[..n]), steps[n]) else Run(steps[..n])
  {
    assert steps[..n + 1][..n] == steps[..n];
  }

  /** One step of a run: it leaves the instance forgetting something unfinished only if it did so before
      or if the step overtakes; and if it overtakes it does. */
  lemma ForgetsNext(steps: seq<Step>, n: nat, s: nat, c: nat)
    requires n < |steps| && c != 0
    ensures ForgetsAt(steps, n + 1, s, c) ==> ForgetsAt(steps, n, s, c) || OvertakesAt(steps, n, s, c)
    ensures OvertakesAt(steps, n, s, c) ==> ForgetsAt(steps, n + 1, s, c)
  {
    var sys, step := Run(steps[..n]), steps[n];
    RunStep(steps, n);
    RunKeepsInv(steps[..n]);
    hide Inv, Run, Enabled, Apply, FalselyForgets, Overtakes;
    if Accepts(sys, step, s, c) {
      AcceptForgetsIff(sys, step, s, c);
    } else if Enabled(sys, step) && FalselyForgets(Apply(sys, step), s, c) {
      OtherStepsForgetNothing(sys, step, s, c);
    }
  }

  lemma {:induction false} ForgetsSince(steps: seq<Step>, n: nat, s: nat, c: nat)
    requires n <= |steps| && c != 0 && ForgetsAt(steps, n, s, c)
    ensures exists m: nat :: m < n && OvertakesAt(steps, m, s, c)
  {
    hide FalselyForgets;
    if n == 0 {
      assert FalselyForgets(INITIAL, s, c);
      NothingForgottenAtFirst(s, c);
    } else {
      ForgetsNext(steps, n - 1, s, c);
      if !OvertakesAt(steps, n - 1, s, c) {
        ForgetsSince(steps, n - 1, s, c);
      }
    }
  }

  lemma NothingForgottenAtFirst(s: nat, c: nat)
    ensures !FalselyForgets(INITIAL, s, c)
  {
  }

  /** In every run, an instance comes to answer "forgotten" to a call that its client has not finished
      exactly when it accepts a request that overtakes that client's oldest unfinished call. */
  lemma FalseForgottenIff(steps: seq<Step>, s: nat, c: nat)
    requires c != 0
    ensures (exists n: nat :: n <= |steps| && ForgetsAt(steps, n, s, c))
       <==> (exists n: nat :: n < |steps| && OvertakesAt(steps, n, s, c))
  {
    hide ForgetsAt, OvertakesAt;
    if n: nat :| n <= |steps| && ForgetsAt(steps, n, s, c) {
      ForgetsSince(steps, n, s, c);
    }
    if n: nat :| n < |steps| && OvertakesAt(steps, n, s, c) {
      ForgetsNext(steps, n, s, c);
      assert ForgetsAt(steps, n + 1, s, c);
    }
  }

  // ---------------------------------------------------------------- no false "forgotten" for tame clients

  ghost predicate AcceptedAt(sys: System, s: nat, c: nat, x: nat) {
    exists i :: 0 <= i < |sys.jobs| && sys.jobs[i].srv == s && IsCall(sys.jobs[i].req, c, x)
  }

  /** The client binds once, and once bound has finished only calls that its server accepted. */
  ghost predicate Tame(sys: System, c: nat) {
    && (forall q :: q in sys.requests && q.clt == c && q.proc == BIND ==> q.xid == 1)
    && (c in sys.clients && sys.clients[c].bound ==>
          forall x :: x in sys.clients[c].finished && x != 0 ==> AcceptedAt(sys, sys.clients[c].srv, c, x))
  }

  /** Why nothing is forgotten too early: the newest acknowledgement that a request carries is
      itself a call that the server accepted. */
  ghost predicate Anchored(sys: System, c: nat) {
    && (forall q :: q in sys.requests && q.clt == c && q.proc != BIND ==>
          AcceptedAt(sys, q.srv, c, 1) && (q.xidRep != 0 ==> AcceptedAt(sys, q.srv, c, q.xidRep)))
    && (c in sys.clients && sys.clients[c].bound ==> 1 in sys.clients[c].finished)
  }

  lemma AcceptedStays(sys: System, step: Step, s: nat, c: nat, x: nat)
    requires Enabled(sys, step) && AcceptedAt(sys, s, c, x)
    ensures AcceptedAt(Apply(sys, step), s, c, x)
  {
    var i :| 0 <= i < |sys.jobs| && sys.jobs[i].srv == s && IsCall(sys.jobs[i].req, c, x);
    var sys' := Apply(sys, step);
    assert sys'.jobs[i].srv == s && IsCall(sys'.jobs[i].req, c, x);
  }

  /** A request whose acknowledgement is anchored overtakes an unfinished call only where the instance
      had forgotten it before: the acknowledged call is still remembered, because only what is strictly
      below it was erased, and so stands between the two. */
  lemma AnchoredAccept(sys: System, step: Step, s: nat, c: nat)
    requires Inv(sys) && Anchored(sys, c) && Tame(sys, c) && c != 0
    requires Accepts(sys, step, s, c) && Overtakes(sys, s, step.req)
    ensures FalselyForgets(sys, s, c)
  {
    var q, t := step.req, Win(sys, s, c);
    var u := Oldest(sys.clients[c]);
    assert RequestOk(sys, q) && ClientOk(sys, c);
    assert q.xidRep < u;
    var x := if q.xidRep != 0 then q.xidRep else 1;
    assert q.proc != BIND && AcceptedAt(sys, s, c, x);
    AcceptedIsKept(sys, s, c, x);
    hide Inv, Anchored, Tame;
    assert x <= u && q.xidRep <= x;
    assert TooOld(t, x);
    assert TooOld(t, u);
    ForgottenIsTooOld(t, u, 0);
    assert u !in sys.clients[c].finished;
  }

  lemma AcceptedIsKept(sys: System, s: nat, c: nat, x: nat)
    requires Inv(sys) && c != 0 && AcceptedAt(sys, s, c, x)
    ensures x in Win(sys, s, c) || TooOld(Win(sys, s, c), x)
  {
    var i :| 0 <= i < |sys.jobs| && sys.jobs[i].srv == s && IsCall(sys.jobs[i].req, c, x);
    assert JobOk(sys, sys.jobs[i]);
  }

  lemma StepGrows(sys: System, step: Step)
    requires Enabled(sys, step)
    ensures forall c :: c in sys.clients ==>
              c in Apply(sys, step).clients && sys.clients[c].finished <= Apply(sys, step).clients[c].finished
    ensures !step.Deliver? && !step.AddReply? ==> Apply(sys, step).windows == sys.windows
    ensures !step.Begin? ==> Apply(sys, step).requests == sys.requests
    ensures forall c :: c in Apply(sys, step).clients && Apply(sys, step).clients[c].bound ==>
              (step.BindDone? && step.c == c) || (c in sys.clients && sys.clients[c].bound)
  {
  }

  lemma WinAfterDispatch(sys: System, s': nat, q: Request, s: nat, c: nat)
    requires c != 0
    ensures Dispatch(sys, s', q).clients == sys.clients
    ensures Win(Dispatch(sys, s', q), s, c)
         == if s' == s && q.clt == c && (q.srv == 0 || q.srv == s) then Check(Win(sys, s, c), q.xid, q.xidRep).1
            else Win(sys, s, c)
  {
  }

  /** A request is stamped with the front of the finished calls, which a tame client knows to have
      been accepted; bind, its first call, is among them. */
  lemma StampIsAnchored(sys: System, c: nat, proc: nat)
    requires Inv(sys) && Anchored(sys, c) && Tame(sys, c)
    requires c in sys.clients && MayBegin(sys.clients[c], proc) && proc != BIND
    ensures var q := Stamp(c, sys.clients[c], proc);
            AcceptedAt(sys, q.srv, c, 1) && (q.xidRep != 0 ==> AcceptedAt(sys, q.srv, c, q.xidRep))
  {
    assert ClientOk(sys, c);
  }

  lemma StepKeepsStamps(sys: System, step: Step, c: nat, q: Request)
    requires Inv(sys) && Enabled(sys, step)
    requires Anchored(sys, c) && Tame(sys, c)
    requires q in Apply(sys, step).requests && q.clt == c && q.proc != BIND
    ensures AcceptedAt(Apply(sys, step), q.srv, c, 1)
    ensures q.xidRep != 0 ==> AcceptedAt(Apply(sys, step), q.srv, c, q.xidRep)
  {
    StepGrows(sys, step);
    if q !in sys.requests {
      StampIsAnchored(sys, c, step.proc);
    }
    AcceptedStays(sys, step, q.srv, c, 1);
    if q.xidRep != 0 {
      AcceptedStays(sys, step, q.srv, c, q.xidRep);
    }
  }

  lemma StepKeepsBound(sys: System, step: Step, c: nat)
    requires Inv(sys) && Enabled(sys, step)
    requires Anchored(sys, c) && Tame(sys, c)
    requires c in Apply(sys, step).clients && Apply(sys, step).clients[c].bound
    ensures 1 in Apply(sys, step).clients[c].finished
  {
    StepGrows(sys, step);
    if step.BindDone? && step.c == c {
      assert ClientOk(sys, c);
    }
  }

  lemma StepKeepsAnchored(sys: System, step: Step, c: nat)
    requires Inv(sys) && Enabled(sys, step) && c != 0
    requires Anchored(sys, c) && Tame(sys, c)
    ensures Anchored(Apply(sys, step), c)
  {
    var sys' := Apply(sys, step);
    forall q | q in sys'.requests && q.clt == c && q.proc != BIND
      ensures AcceptedAt(sys', q.srv, c, 1) && (q.xidRep != 0 ==> AcceptedAt(sys', q.srv, c, q.xidRep)) {
      StepKeepsStamps(sys, step, c, q);
    }
    if c in sys'.clients && sys'.clients[c].bound {
      StepKeepsBound(sys, step, c);
    }
  }

  /** A client that binds once and finishes only accepted calls sends no request that overtakes. */
  lemma {:induction false} TameNeverOvertakes(steps: seq<Step>, n: nat, s: nat, c: nat)
    requires n < |steps| && c != 0
    requires forall m :: 0 <= m <= |steps| ==> Tame(Run(steps[..m]), c)
    ensures !OvertakesAt(steps, n, s, c)
  {
    if OvertakesAt(steps, n, s, c) {
      var before := steps[..n];
      forall m | 0 <= m <= n ensures Tame(Run(before[..m]), c) {
        assert before[..m] == steps[..m];
      }
      RunIsAnchored(before, c);
      RunKeepsInv(before);
      hide Inv, Run, Accepts, Overtakes;
      AnchoredAccept(Run(before), steps[n], s, c);
      ForgetsSince(steps, n, s, c);
      var m: nat :| m < n && OvertakesAt(steps, m, s, c);
      TameNeverOvertakes(steps, m, s, c);
    }
  }

  /** So in its runs "forgotten" is answered only for calls that it has already finished. */
  lemma NoFalseForgotten(steps: seq<Step>, c: nat)
    requires c != 0
    requires forall n :: 0 <= n <= |steps| ==> Tame(Run(steps[..n]), c)
    ensures forall s, x: nat, xidRep :: Check(Win(Run(steps), s, c), x, xidRep).0 == Forgotten ==>
              c in Run(steps).clients && x in Run(steps).clients[c].finished
  {
    RunKeepsInv(steps);
    assert steps[..|steps|] == steps;
    forall s, x: nat, xidRep | Check(Win(Run(steps), s, c), x, xidRep).0 == Forgotten
      ensures c in Run(steps).clients && x in Run(steps).clients[c].finished
    {
      ForgottenIsTooOld(Win(Run(steps), s, c), x, xidRep);
      ForgottenIsTooOld(Win(Run(steps), s, c), x, 0);
      WindowsHaveClients(Run(steps), s, c, x);
      NeverForgets(steps, s, c);
    }
  }

  lemma NeverForgets(steps: seq<Step>, s: nat, c: nat)
    requires c != 0
    requires forall n :: 0 <= n <= |steps| ==> Tame(Run(steps[..n]), c)
    ensures !FalselyForgets(Run(steps), s, c)
  {
    assert steps[..|steps|] == steps;
    forall n: nat | n < |steps| ensures !OvertakesAt(steps, n, s, c) {
      TameNeverOvertakes(steps, n, s, c);
    }
    FalseForgottenIff(steps, s, c);
    assert !ForgetsAt(steps, |steps|, s, c);
  }

  lemma {:induction false} RunIsAnchored(steps: seq<Step>, c: nat)
    requires c != 0
    requires forall n :: 0 <= n <= |steps| ==> Tame(Run(steps[..n]), c)
    ensures Anchored(Run(steps), c)
  {
    if steps != [] {
      var before, step := steps[..|steps| - 1], steps[|steps| - 1];
      assert steps[..|steps|] == steps;
      forall n | 0 <= n <= |before| ensures Tame(Run(before[..n]), c) {
        assert before[..n] == steps[..n];
      }
      RunIsAnchored(before, c);
      RunKeepsInv(before);
      assert before[..|before|] == before;
      if Enabled(Run(before), step) {
        StepKeepsAnchored(Run(before), step, c);
      }
    }
  }
}
