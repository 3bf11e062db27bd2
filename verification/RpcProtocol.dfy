/** The at-most-once protocol as a step system: any number of clients and server instances joined by
    a network that loses, duplicates and reorders messages.

    Every message ever sent stays in the network, so that delivering it again models a
    retransmission or a duplicate, never delivering it models a loss, and delivering it late models
    a reordering. */
module RpcProtocol {
  import opened RpcTypes
  import opened XidWindow
  import opened ReplyWindow

  datatype Request = Request(clt: nat, xid: nat, proc: nat, srv: nat, xidRep: nat)
  datatype Reply = Reply(clt: nat, xid: nat, res: Result)

  /** The client's lock-protected state. `returned` remembers what each finished call gave back. */
  datatype Client = Client(
    next: nat,
    bound: bool,
    srv: nat,
    closing: bool,
    calls: map<nat, Option<Result>>,
    finished: set<nat>,
    returned: map<nat, Result>)

  const FRESH_CLIENT := Client(1, false, 0, false, map[], {0}, map[])

  /** A call that a server instance classified as new, from then on handled by one thread. */
  datatype Phase = Accepted | Executed(res: Result) | Recorded(res: Result) | Sent(res: Result)
  datatype Job = Job(srv: nat, req: Request, phase: Phase)

  datatype System = System(
    clients: map<nat, Client>,
    servers: set<nat>,
    windows: map<(nat, nat), Table>,
    requests: set<Request>,
    replies: set<Reply>,
    jobs: seq<Job>)

  datatype Step =
    | NewClient(c: nat)
    | NewServer(s: nat)
    | Begin(c: nat, proc: nat)
    | Deliver(s: nat, req: Request)
    | Execute(j: nat, res: Result)
    | AddReply(j: nat)
    | SendReply(j: nat)
    | GotReply(rep: Reply)
    | End(c: nat, xid: nat)
    | BindDone(c: nat, xid: nat)
    | Cancel(c: nat)

  // ---------------------------------------------------------------- the client's atomic sections

  predicate MayBegin(c: Client, proc: nat) {
    (proc == BIND <==> !c.bound) && !c.closing
  }

  function Stamp(nonce: nat, c: Client, proc: nat): Request {
    Request(nonce, c.next, proc, c.srv, Front(c.finished))
  }

  function ClientBegin(c: Client): Client {
    c.(next := c.next + 1, calls := c.calls[c.next := None])
  }

  /** Only the first reply is taken; every reply counts as an acknowledgement. */
  function ClientGotReply(c: Client, xid: nat, res: Result): Client {
    c.(finished := c.finished + {xid},
       calls := if xid in c.calls && c.calls[xid].None? then c.calls[xid := Some(res)] else c.calls)
  }

  function ClientEnd(c: Client, xid: nat): Client
    requires xid in c.calls
  {
    c.(finished := c.finished + {xid},
       calls := c.calls - {xid},
       returned := c.returned[xid := if c.calls[xid].Some? then c.calls[xid].value
                                     else Result(TIMEOUT_FAILURE, [])])
  }

  function ClientBindDone(c: Client, srv: nat): Client {
    c.(bound := true, srv := srv)
  }

  /** Forces every outstanding call to fail; with none outstanding nothing changes. */
  function ClientCancel(c: Client): Client {
    c.(closing := c.closing || c.calls != map[], calls := map x | x in c.calls :: Some(Result(CANCEL_FAILURE, [])))
  }

  // ---------------------------------------------------------------- steps of the system

  function Win(sys: System, s: nat, c: nat): Table {
    if (s, c) in sys.windows then sys.windows[(s, c)] else map[]
  }

  function SetWin(sys: System, s: nat, c: nat, t: Table): System
  {
    sys.(windows := sys.windows[(s, c) := t])
  }

  function SetClient(sys: System, c: nat, client: Client): System {
    sys.(clients := sys.clients[c := client])
  }

  function SetPhase(sys: System, j: nat, phase: Phase): System
    requires j < |sys.jobs|
  {
    sys.(jobs := sys.jobs[j := sys.jobs[j].(phase := phase)])
  }

  function BeginCall(sys: System, c: nat, proc: nat): System
    requires c in sys.clients
  {
    SetClient(sys, c, ClientBegin(sys.clients[c])).(requests := sys.requests + {Stamp(c, sys.clients[c], proc)})
  }

  function Answer(sys: System, q: Request, res: Result): System {
    sys.(replies := sys.replies + {Reply(q.clt, q.xid, res)})
  }

  function Accept(sys: System, s: nat, q: Request): System {
    sys.(jobs := sys.jobs + [Job(s, q, Accepted)])
  }

  function Dispatch(sys: System, s: nat, q: Request): System {
    if q.srv != 0 && q.srv != s then
      Answer(sys, q, Result(OLDSRV_FAILURE, []))
    else if q.clt == 0 then
      Accept(sys, s, q)
    else
      var (v, t) := Check(Win(sys, s, q.clt), q.xid, q.xidRep);
      var sys' := SetWin(sys, s, q.clt, t);
      match v
      case New => Accept(sys', s, q)
      case InProgress => sys'
      case Done(res) => Answer(sys', q, res)
      case Forgotten => Answer(sys', q, Result(ATMOSTONCE_FAILURE, []))
  }

  /** What a handler may produce: a code that is not negative and any bytes; binding produces the
      instance's own nonce. */
  predicate HandlerResult(s: nat, q: Request, res: Result) {
    res.ret >= 0 && (q.proc == BIND ==> res == Result(0, [s]))
  }

  /** Replies are recorded only for clients that ask for at-most-once service. */
  function RecordReply(sys: System, j: nat): System
    requires j < |sys.jobs| && sys.jobs[j].phase.Executed?
  {
    var job := sys.jobs[j];
    var sys' := SetPhase(sys, j, Recorded(job.phase.res));
    if job.req.clt == 0 then sys'
    else SetWin(sys', job.srv, job.req.clt,
                Record(Win(sys, job.srv, job.req.clt), job.req.xid, job.phase.res))
  }

  predicate Enabled(sys: System, step: Step) {
    match step
    case NewClient(c) => c !in sys.clients
    case NewServer(s) => s !in sys.servers && s != 0
    case Begin(c, proc) => c in sys.clients && MayBegin(sys.clients[c], proc)
    case Deliver(s, q) => s in sys.servers && q in sys.requests
    case Execute(j, res) => j < |sys.jobs| && sys.jobs[j].phase.Accepted?
                            && HandlerResult(sys.jobs[j].srv, sys.jobs[j].req, res)
    case AddReply(j) => j < |sys.jobs| && sys.jobs[j].phase.Executed?
    case SendReply(j) => j < |sys.jobs| && sys.jobs[j].phase.Recorded?
    case GotReply(rep) => rep in sys.replies && rep.clt in sys.clients
    case End(c, x) => c in sys.clients && x in sys.clients[c].calls
    case BindDone(c, x) => c in sys.clients && x in sys.clients[c].returned && sys.clients[c].returned[x].ret == 0
                           && |sys.clients[c].returned[x].data| == 1 && sys.clients[c].returned[x].data[0] >= 0
                           && exists q :: q in sys.requests && q.clt == c && q.xid == x && q.proc == BIND
    case Cancel(c) => c in sys.clients
  }

  function Apply(sys: System, step: Step): System
    requires Enabled(sys, step)
  {
    match step
    case NewClient(c) => SetClient(sys, c, FRESH_CLIENT)
    case NewServer(s) => sys.(servers := sys.servers + {s})
    case Begin(c, proc) => BeginCall(sys, c, proc)
    case Deliver(s, q) => Dispatch(sys, s, q)
    case Execute(j, res) => SetPhase(sys, j, Executed(res))
    case AddReply(j) => RecordReply(sys, j)
    case SendReply(j) => Answer(SetPhase(sys, j, Sent(sys.jobs[j].phase.res)), sys.jobs[j].req, sys.jobs[j].phase.res)
    case GotReply(rep) => SetClient(sys, rep.clt, ClientGotReply(sys.clients[rep.clt], rep.xid, rep.res))
    case End(c, x) => SetClient(sys, c, ClientEnd(sys.clients[c], x))
    case BindDone(c, x) => SetClient(sys, c, ClientBindDone(sys.clients[c], sys.clients[c].returned[x].data[0]))
    case Cancel(c) => SetClient(sys, c, ClientCancel(sys.clients[c]))
  }

  const INITIAL := System(map[], {}, map[], {}, {}, [])

  /** The state after a run; a step that is not enabled leaves the state as it is. */
  function Run(steps: seq<Step>): System {
    if steps == [] then INITIAL
    else
      var sys := Run(steps[..|steps| - 1]);
      var step := steps[|steps| - 1];
      if Enabled(sys, step) then Apply(sys, step) else sys
  }

  // ---------------------------------------------------------------- invariant

  predicate SameCall(a: Request, b: Request) {
    a.clt == b.clt && a.xid == b.xid
  }

  predicate HasResult(phase: Phase, res: Result) {
    (phase.Executed? || phase.Recorded? || phase.Sent?) && phase.res == res
  }

  predicate Answered(job: Job, c: nat, x: nat, res: Result) {
    job.req.clt == c && job.req.xid == x && HasResult(job.phase, res)
  }

  /** Call numbers in use are below the counter, and finished ones are never outstanding again. */
  ghost predicate ClientOk(sys: System, c: nat)
    requires c in sys.clients
  {
    var k := sys.clients[c];
    && 0 in k.finished
    && (forall x :: x in k.finished ==> x < k.next)
    && (forall x :: x in k.calls ==> 0 < x < k.next && x !in k.returned)
    && (forall x :: x in k.calls && k.calls[x].None? ==> x !in k.finished)
    && (forall x :: x in k.returned ==> x in k.finished)
    && (k.bound <==> k.srv != 0)
  }

  /** The stamp on a request: it acknowledges only finished calls, all of them older than itself. */
  ghost predicate RequestOk(sys: System, q: Request) {
    && q.clt in sys.clients
    && q.xidRep < q.xid < sys.clients[q.clt].next
    && (forall y: nat :: y <= q.xidRep ==> y in sys.clients[q.clt].finished)
    && (q.proc == BIND <==> q.srv == 0)
  }

  ghost predicate RequestsOk(sys: System) {
    && (forall q :: q in sys.requests ==> RequestOk(sys, q))
    && (forall q, r :: q in sys.requests && r in sys.requests && SameCall(q, r) ==> q == r)
  }

  ghost predicate JobOk(sys: System, job: Job) {
    && job.req in sys.requests
    && job.req.clt in sys.clients
    && job.srv in sys.servers
    && (job.req.srv == 0 || job.req.srv == job.srv)
    && (!job.phase.Accepted? ==> HandlerResult(job.srv, job.req, job.phase.res))
    && (job.req.clt != 0 ==>
          var w := Win(sys, job.srv, job.req.clt);
          job.req.xid in w || TooOld(w, job.req.xid))
    && (job.req.clt != 0 && job.req.xid !in sys.clients[job.req.clt].finished ==>
          job.req.xid in Win(sys, job.srv, job.req.clt))
  }

  ghost predicate JobsOk(sys: System) {
    forall i :: 0 <= i < |sys.jobs| ==> JobOk(sys, sys.jobs[i])
  }

  /** A call from a client that asks for at-most-once service is new to an instance at most once. */
  ghost predicate AtMostOnce(sys: System) {
    forall i, j :: 0 <= i < j < |sys.jobs| ==>
      sys.jobs[i].req.clt == 0 || sys.jobs[i].srv != sys.jobs[j].srv || !SameCall(sys.jobs[i].req, sys.jobs[j].req)
  }

  /** The job behind a remembered call: still working, or done with exactly the remembered result. */
  predicate Explains(job: Job, s: nat, c: nat, x: nat, entry: Option<Result>) {
    && job.srv == s && job.req.clt == c && job.req.xid == x
    && match entry
       case None => job.phase.Accepted? || job.phase.Executed?
       case Some(res) => HasResult(job.phase, res)
  }

  ghost predicate WindowEntryOk(sys: System, s: nat, c: nat, x: nat) {
    x in Win(sys, s, c) ==> c != 0 && exists i :: 0 <= i < |sys.jobs| && Explains(sys.jobs[i], s, c, x, Win(sys, s, c)[x])
  }

  ghost predicate HasJob(sys: System, c: nat, x: nat, res: Result) {
    exists i :: 0 <= i < |sys.jobs| && Answered(sys.jobs[i], c, x, res)
  }

  ghost predicate ReplyOk(sys: System, rep: Reply) {
    && rep.clt in sys.clients
    && rep.xid < sys.clients[rep.clt].next
    && (rep.res.ret >= 0 ==> HasJob(sys, rep.clt, rep.xid, rep.res))
  }

  ghost predicate ResultsOk(sys: System, c: nat)
    requires c in sys.clients
  {
    var k := sys.clients[c];
    && (forall x :: x in k.calls && k.calls[x].Some? && k.calls[x].value.ret >= 0 ==> HasJob(sys, c, x, k.calls[x].value))
    && (forall x :: x in k.returned && k.returned[x].ret >= 0 ==> HasJob(sys, c, x, k.returned[x]))
  }

  ghost predicate Inv(sys: System) {
    && 0 !in sys.servers
    && (forall c :: c in sys.clients ==> ClientOk(sys, c))
    && RequestsOk(sys)
    && JobsOk(sys)
    && AtMostOnce(sys)
    && (forall s, c, x :: WindowEntryOk(sys, s, c, x))
    && (forall rep :: rep in sys.replies ==> ReplyOk(sys, rep))
    && (forall c :: c in sys.clients ==> ResultsOk(sys, c))
  }

  // ---------------------------------------------------------------- the client's steps

  /** A step that only adds clients, calls and acknowledgements. */
  ghost predicate ClientSide(sys: System, sys': System) {
    && sys'.servers == sys.servers && sys'.windows == sys.windows && sys'.jobs == sys.jobs && sys'.replies == sys.replies
    && sys.requests <= sys'.requests
    && (forall c :: c in sys.clients ==>
          c in sys'.clients && sys.clients[c].finished <= sys'.clients[c].finished
          && sys.clients[c].next <= sys'.clients[c].next)
  }

  lemma ClientSideKeeps(sys: System, sys': System)
    requires Inv(sys) && ClientSide(sys, sys')
    ensures forall c, x, res :: HasJob(sys, c, x, res) <==> HasJob(sys', c, x, res)
    ensures forall q :: q in sys.requests ==> RequestOk(sys', q)
    ensures JobsOk(sys') && AtMostOnce(sys')
    ensures forall s, c, x :: WindowEntryOk(sys', s, c, x)
    ensures forall rep :: rep in sys'.replies ==> ReplyOk(sys', rep)
  {
    forall q | q in sys.requests ensures RequestOk(sys', q) {
      assert RequestOk(sys, q);
    }
    forall i | 0 <= i < |sys.jobs| ensures JobOk(sys', sys.jobs[i]) {
      assert JobOk(sys, sys.jobs[i]);
    }
    forall s, c, x ensures WindowEntryOk(sys', s, c, x) {
      assert WindowEntryOk(sys, s, c, x);
    }
    forall rep | rep in sys'.replies ensures ReplyOk(sys', rep) {
      assert ReplyOk(sys, rep);
      if rep.res.ret >= 0 {
        assert HasJob(sys, rep.clt, rep.xid, rep.res);
      }
    }
  }

  /** A client step that finishes calls, or takes results that some job produced, keeps everything. */
  lemma ClientChange(sys: System, c: nat, k: Client)
    requires Inv(sys) && c in sys.clients
    requires k.next == sys.clients[c].next && sys.clients[c].finished <= k.finished
    requires ClientOk(SetClient(sys, c, k), c)
    requires forall x :: x in k.calls && k.calls[x].Some? && k.calls[x].value.ret >= 0 ==> HasJob(sys, c, x, k.calls[x].value)
    requires forall x :: x in k.returned && k.returned[x].ret >= 0 ==> HasJob(sys, c, x, k.returned[x])
    ensures Inv(SetClient(sys, c, k))
  {
    var sys' := SetClient(sys, c, k);
    ClientSideKeeps(sys, sys');
    forall d | d in sys'.clients ensures ClientOk(sys', d) && ResultsOk(sys', d) {
      if d != c {
        assert ClientOk(sys, d) && ResultsOk(sys, d);
      }
    }
  }

  lemma KeepGotReply(sys: System, rep: Reply)
    requires Inv(sys) && rep in sys.replies && rep.clt in sys.clients
    ensures Inv(SetClient(sys, rep.clt, ClientGotReply(sys.clients[rep.clt], rep.xid, rep.res)))
  {
    var c, k := rep.clt, ClientGotReply(sys.clients[rep.clt], rep.xid, rep.res);
    assert ReplyOk(sys, rep) && ClientOk(sys, c) && ResultsOk(sys, c);
    ClientChange(sys, c, k);
  }

  lemma KeepEnd(sys: System, c: nat, x: nat)
    requires Inv(sys) && c in sys.clients && x in sys.clients[c].calls
    ensures Inv(SetClient(sys, c, ClientEnd(sys.clients[c], x)))
  {
    assert ClientOk(sys, c) && ResultsOk(sys, c);
    ClientChange(sys, c, ClientEnd(sys.clients[c], x));
  }

  /** The nonce that a client binds to is the nonce of an instance that ran its bind call. */
  lemma BindNonce(sys: System, c: nat, q: Request, res: Result)
    requires Inv(sys) && HasJob(sys, c, q.xid, res) && q in sys.requests && q.clt == c && q.proc == BIND
    ensures |res.data| == 1 && res.data[0] != 0
    ensures exists i :: 0 <= i < |sys.jobs| && Answered(sys.jobs[i], c, q.xid, res) && sys.jobs[i].srv == res.data[0]
  {
    var i :| 0 <= i < |sys.jobs| && Answered(sys.jobs[i], c, q.xid, res);
    assert JobOk(sys, sys.jobs[i]) && SameCall(q, sys.jobs[i].req);
  }

  lemma KeepBindDone(sys: System, c: nat, q: Request)
    requires Inv(sys) && c in sys.clients && q in sys.requests && q.clt == c && q.proc == BIND
    requires q.xid in sys.clients[c].returned && sys.clients[c].returned[q.xid].ret == 0
    requires |sys.clients[c].returned[q.xid].data| == 1 && sys.clients[c].returned[q.xid].data[0] >= 0
    ensures Inv(SetClient(sys, c, ClientBindDone(sys.clients[c], sys.clients[c].returned[q.xid].data[0])))
  {
    var res := sys.clients[c].returned[q.xid];
    assert ClientOk(sys, c) && ResultsOk(sys, c);
    BindNonce(sys, c, q, res);
    ClientChange(sys, c, ClientBindDone(sys.clients[c], res.data[0]));
  }

  lemma KeepCancel(sys: System, c: nat)
    requires Inv(sys) && c in sys.clients
    ensures Inv(SetClient(sys, c, ClientCancel(sys.clients[c])))
  {
    assert ClientOk(sys, c) && ResultsOk(sys, c);
    ClientChange(sys, c, ClientCancel(sys.clients[c]));
  }

  lemma KeepNewClient(sys: System, c: nat)
    requires Inv(sys) && c !in sys.clients
    ensures Inv(SetClient(sys, c, FRESH_CLIENT))
  {
    var sys' := SetClient(sys, c, FRESH_CLIENT);
    ClientSideKeeps(sys, sys');
    forall d | d in sys'.clients ensures ClientOk(sys', d) && ResultsOk(sys', d) {
      if d != c {
        assert ClientOk(sys, d) && ResultsOk(sys, d);
      }
    }
  }

  /** The stamp of a new request acknowledges finished calls only, and they are all older. */
  lemma StampOk(sys: System, c: nat, proc: nat)
    requires Inv(sys) && c in sys.clients && MayBegin(sys.clients[c], proc)
    ensures RequestOk(BeginCall(sys, c, proc), Stamp(c, sys.clients[c], proc))
    ensures forall q :: q in sys.requests ==> !SameCall(q, Stamp(c, sys.clients[c], proc))
  {
    assert ClientOk(sys, c);
    assert Front(sys.clients[c].finished) in sys.clients[c].finished;
    forall q | q in sys.requests ensures !SameCall(q, Stamp(c, sys.clients[c], proc)) {
      assert RequestOk(sys, q);
    }
  }

  lemma BeginKeepsRequests(sys: System, c: nat, proc: nat)
    requires Inv(sys) && c in sys.clients && MayBegin(sys.clients[c], proc)
    requires forall q :: q in sys.requests ==> RequestOk(BeginCall(sys, c, proc), q)
    ensures RequestsOk(BeginCall(sys, c, proc))
  {
    hide JobsOk, AtMostOnce, WindowEntryOk, ReplyOk, ResultsOk;
    StampOk(sys, c, proc);
  }

  lemma BeginKeepsClients(sys: System, c: nat, proc: nat, d: nat)
    requires Inv(sys) && c in sys.clients && MayBegin(sys.clients[c], proc)
    requires d in BeginCall(sys, c, proc).clients
    ensures ClientOk(BeginCall(sys, c, proc), d)
  {
    assert ClientOk(sys, d);
    hide Inv, Front;
  }

  lemma BeginKeepsResults(sys: System, c: nat, proc: nat, d: nat)
    requires Inv(sys) && c in sys.clients && MayBegin(sys.clients[c], proc)
    requires d in BeginCall(sys, c, proc).clients
    requires forall x, res :: HasJob(sys, d, x, res) <==> HasJob(BeginCall(sys, c, proc), d, x, res)
    ensures ResultsOk(BeginCall(sys, c, proc), d)
  {
    assert ResultsOk(sys, d);
    hide Inv, HasJob, Front;
  }

  lemma KeepBegin(sys: System, c: nat, proc: nat)
    requires Inv(sys) && c in sys.clients && MayBegin(sys.clients[c], proc)
    ensures Inv(BeginCall(sys, c, proc))
  {
    hide JobsOk, AtMostOnce, WindowEntryOk, ReplyOk, ClientOk, ResultsOk, RequestOk, RequestsOk, HasJob;
    var sys' := BeginCall(sys, c, proc);
    ClientSideKeeps(sys, sys');
    BeginKeepsRequests(sys, c, proc);
    forall d | d in sys'.clients ensures ClientOk(sys', d) && ResultsOk(sys', d) {
      BeginKeepsClients(sys, c, proc, d);
      BeginKeepsResults(sys, c, proc, d);
    }
  }

  // ---------------------------------------------------------------- the server's steps

  /** A step of a server leaves clients and requests alone, and never loses a job's result. */
  ghost predicate ServerSide(sys: System, sys': System) {
    && sys'.clients == sys.clients
    && sys'.requests == sys.requests
    && sys.servers <= sys'.servers && 0 !in sys'.servers
    && |sys.jobs| <= |sys'.jobs|
    && (forall i :: 0 <= i < |sys.jobs| ==> sys'.jobs[i].srv == sys.jobs[i].srv && sys'.jobs[i].req == sys.jobs[i].req)
    && (forall i, res :: 0 <= i < |sys.jobs| && HasResult(sys.jobs[i].phase, res) ==> HasResult(sys'.jobs[i].phase, res))
  }

  lemma ServerChange(sys: System, sys': System)
    requires Inv(sys) && ServerSide(sys, sys')
    requires JobsOk(sys') && AtMostOnce(sys')
    requires forall s, c, x :: WindowEntryOk(sys', s, c, x)
    requires forall rep :: rep in sys'.replies ==> rep in sys.replies || ReplyOk(sys', rep)
    ensures Inv(sys')
  {
    forall c, x, res | HasJob(sys, c, x, res) ensures HasJob(sys', c, x, res) {
      var i :| 0 <= i < |sys.jobs| && Answered(sys.jobs[i], c, x, res);
      assert Answered(sys'.jobs[i], c, x, res);
    }
    forall q | q in sys.requests ensures RequestOk(sys', q) {
      assert RequestOk(sys, q);
    }
    forall rep | rep in sys'.replies ensures ReplyOk(sys', rep) {
      if rep in sys.replies {
        assert ReplyOk(sys, rep);
      }
    }
    forall d | d in sys'.clients ensures ClientOk(sys', d) && ResultsOk(sys', d) {
      assert ClientOk(sys, d) && ResultsOk(sys, d);
    }
  }

  lemma KeepNewServer(sys: System, s0: nat)
    requires Inv(sys) && s0 != 0
    ensures Inv(sys.(servers := sys.servers + {s0}))
  {
    var sys' := sys.(servers := sys.servers + {s0});
    forall i | 0 <= i < |sys.jobs| ensures JobOk(sys', sys.jobs[i]) {
      assert JobOk(sys, sys.jobs[i]);
    }
    forall s, d, x ensures WindowEntryOk(sys', s, d, x) {
      assert WindowEntryOk(sys, s, d, x);
    }
    ServerChange(sys, sys');
  }

  /** The phases a job goes through while the window is left alone. */
  predicate Moves(from: Phase, to: Phase) {
    (from.Accepted? && to.Executed?) || (from.Recorded? && to == Sent(from.res))
  }

  lemma MoveKeepsEntry(sys: System, j: nat, phase: Phase, s: nat, c: nat, x: nat)
    requires j < |sys.jobs| && Moves(sys.jobs[j].phase, phase) && WindowEntryOk(sys, s, c, x)
    ensures WindowEntryOk(SetPhase(sys, j, phase), s, c, x)
  {
    var sys' := SetPhase(sys, j, phase);
    if x in Win(sys, s, c) {
      var i :| 0 <= i < |sys.jobs| && Explains(sys.jobs[i], s, c, x, Win(sys, s, c)[x]);
      assert Explains(sys'.jobs[i], s, c, x, Win(sys', s, c)[x]);
    }
  }

  lemma KeepMove(sys: System, j: nat, phase: Phase)
    requires Inv(sys) && j < |sys.jobs| && Moves(sys.jobs[j].phase, phase)
    requires HandlerResult(sys.jobs[j].srv, sys.jobs[j].req, phase.res)
    ensures Inv(SetPhase(sys, j, phase))
  {
    hide ClientOk, ResultsOk, ReplyOk, RequestsOk;
    var sys' := SetPhase(sys, j, phase);
    forall i | 0 <= i < |sys'.jobs| ensures JobOk(sys', sys'.jobs[i]) {
      assert JobOk(sys, sys.jobs[i]);
    }
    forall s, c, x ensures WindowEntryOk(sys', s, c, x) {
      MoveKeepsEntry(sys, j, phase, s, c, x);
    }
    ServerChange(sys, sys');
  }

  lemma KeepReply(sys: System, q: Request, res: Result)
    requires Inv(sys) && q in sys.requests
    requires res.ret >= 0 ==> HasJob(sys, q.clt, q.xid, res)
    ensures Inv(Answer(sys, q, res))
  {
    var sys' := Answer(sys, q, res);
    assert RequestOk(sys, q);
    hide ClientOk, ResultsOk, RequestsOk;
    forall i | 0 <= i < |sys.jobs| ensures JobOk(sys', sys'.jobs[i]) {
      assert JobOk(sys, sys.jobs[i]);
    }
    forall s, c, x ensures WindowEntryOk(sys', s, c, x) {
      assert WindowEntryOk(sys, s, c, x);
    }
    assert forall c, x, r :: HasJob(sys, c, x, r) ==> HasJob(sys', c, x, r);
    ServerChange(sys, sys');
  }

  lemma KeepSendReply(sys: System, j: nat)
    requires Inv(sys) && j < |sys.jobs| && sys.jobs[j].phase.Recorded?
    ensures Inv(Answer(SetPhase(sys, j, Sent(sys.jobs[j].phase.res)), sys.jobs[j].req, sys.jobs[j].phase.res))
  {
    var q, res := sys.jobs[j].req, sys.jobs[j].phase.res;
    var sys' := SetPhase(sys, j, Sent(res));
    assert JobOk(sys, sys.jobs[j]);
    KeepMove(sys, j, Sent(res));
    assert Answered(sys'.jobs[j], q.clt, q.xid, res);
    KeepReply(sys', q, res);
  }

  lemma AgeSurvivesRecord(t: Table, x: nat, res: Result, y: nat)
    ensures Record(t, x, res).Keys == t.Keys
    ensures TooOld(Record(t, x, res), y) <==> TooOld(t, y)
  {
    assert t != map[] ==> exists k :: k in t;
    assert Record(t, x, res).Keys == t.Keys;
  }

  lemma AddReplyKeepsEntry(sys: System, j: nat, s: nat, c: nat, x: nat)
    requires j < |sys.jobs| && sys.jobs[j].phase.Executed?
    requires AtMostOnce(sys) && WindowEntryOk(sys, s, c, x)
    ensures WindowEntryOk(RecordReply(sys, j), s, c, x)
  {
    var sys' := RecordReply(sys, j);
    if x in Win(sys', s, c) {
      assert x in Win(sys, s, c);
      var i :| 0 <= i < |sys.jobs| && Explains(sys.jobs[i], s, c, x, Win(sys, s, c)[x]);
      assert Explains(sys'.jobs[i], s, c, x, Win(sys', s, c)[x]);
    }
  }

  lemma AddReplyKeepsJob(sys: System, j: nat, i: nat)
    requires j < |sys.jobs| && sys.jobs[j].phase.Executed? && i < |sys.jobs|
    requires JobOk(sys, sys.jobs[i])
    ensures JobOk(RecordReply(sys, j), RecordReply(sys, j).jobs[i])
  {
    var s, q := sys.jobs[j].srv, sys.jobs[j].req;
    AgeSurvivesRecord(Win(sys, s, q.clt), q.xid, sys.jobs[j].phase.res, sys.jobs[i].req.xid);
  }

  /** The entry that a finishing job records is its own, because no other job has its call. */
  lemma KeepAddReply(sys: System, j: nat)
    requires Inv(sys) && j < |sys.jobs| && sys.jobs[j].phase.Executed?
    ensures Inv(RecordReply(sys, j))
  {
    var sys' := RecordReply(sys, j);
    forall i | 0 <= i < |sys'.jobs| ensures JobOk(sys', sys'.jobs[i]) {
      AddReplyKeepsJob(sys, j, i);
    }
    forall s, c, x ensures WindowEntryOk(sys', s, c, x) {
      AddReplyKeepsEntry(sys, j, s, c, x);
    }
    ServerChange(sys, sys');
  }

  // ---------------------------------------------------------------- dispatch

  /** A request that is not too old and not remembered has not been accepted before. */
  lemma NewIsFresh(sys: System, s: nat, q: Request, i: nat)
    requires Inv(sys) && q.clt != 0 && i < |sys.jobs|
    requires Check(Win(sys, s, q.clt), q.xid, q.xidRep).0 == New
    ensures sys.jobs[i].srv != s || !SameCall(sys.jobs[i].req, q)
  {
    assert JobOk(sys, sys.jobs[i]);
  }

  /** What remains true of another call `y` of the same client when call `x` is accepted: it stays
      remembered unless it is acknowledged, and otherwise stays too old. */
  lemma AcceptKeepsOthers(t: Table, x: nat, xidRep: nat, y: nat)
    requires Check(t, x, xidRep).0 == New && xidRep <= x
    requires y in t || TooOld(t, y)
    ensures y in Check(t, x, xidRep).1 || TooOld(Check(t, x, xidRep).1, y)
    ensures y in t && xidRep <= y ==> y in Check(t, x, xidRep).1
    ensures x in Check(t, x, xidRep).1 && Check(t, x, xidRep).1[x] == None
  {
    var t' := Check(t, x, xidRep).1;
    assert x in t';
    if TooOld(t, y) {
      var k :| k in t && k <= x;
      assert y < k;
    }
  }

  lemma AcceptKeepsJob(sys: System, s: nat, q: Request, job: Job)
    requires JobOk(sys, job) && RequestOk(sys, q)
    requires Check(Win(sys, s, q.clt), q.xid, q.xidRep).0 == New
    ensures JobOk(SetWin(sys, s, q.clt, Check(Win(sys, s, q.clt), q.xid, q.xidRep).1), job)
  {
    if job.srv == s && job.req.clt == q.clt && q.clt != 0 {
      AcceptKeepsOthers(Win(sys, s, q.clt), q.xid, q.xidRep, job.req.xid);
    }
  }

  lemma AcceptKeepsEntry(sys: System, s0: nat, q: Request, s: nat, c: nat, x: nat)
    requires WindowEntryOk(sys, s, c, x) && q.clt != 0
    requires Check(Win(sys, s0, q.clt), q.xid, q.xidRep).0 == New
    ensures WindowEntryOk(Accept(SetWin(sys, s0, q.clt, Check(Win(sys, s0, q.clt), q.xid, q.xidRep).1), s0, q), s, c, x)
  {
    var sys' := Accept(SetWin(sys, s0, q.clt, Check(Win(sys, s0, q.clt), q.xid, q.xidRep).1), s0, q);
    if x in Win(sys', s, c) {
      if s == s0 && c == q.clt && x == q.xid {
        assert Explains(sys'.jobs[|sys.jobs|], s, c, x, Win(sys', s, c)[x]);
      } else {
        assert x in Win(sys, s, c);
        var i :| 0 <= i < |sys.jobs| && Explains(sys.jobs[i], s, c, x, Win(sys, s, c)[x]);
        assert Explains(sys'.jobs[i], s, c, x, Win(sys', s, c)[x]);
      }
    }
  }

  lemma KeepAccept(sys: System, s: nat, q: Request)
    requires Inv(sys) && s in sys.servers && q in sys.requests && q.clt != 0
    requires q.srv == 0 || q.srv == s
    requires Check(Win(sys, s, q.clt), q.xid, q.xidRep).0 == New
    ensures Inv(Accept(SetWin(sys, s, q.clt, Check(Win(sys, s, q.clt), q.xid, q.xidRep).1), s, q))
  {
    hide ClientOk, ResultsOk, ReplyOk;
    var t := Check(Win(sys, s, q.clt), q.xid, q.xidRep).1;
    var sys' := Accept(SetWin(sys, s, q.clt, t), s, q);
    assert RequestOk(sys, q);
    assert q.xid in t;
    forall i | 0 <= i < |sys.jobs|
      ensures JobOk(sys', sys'.jobs[i]) && (sys.jobs[i].srv != s || !SameCall(sys.jobs[i].req, q)) {
      assert JobOk(sys, sys.jobs[i]);
      AcceptKeepsJob(sys, s, q, sys.jobs[i]);
      assert JobOk(SetWin(sys, s, q.clt, t), sys.jobs[i]);
      NewIsFresh(sys, s, q, i);
    }
    assert JobOk(sys', sys'.jobs[|sys.jobs|]);
    forall s1, c, x ensures WindowEntryOk(sys', s1, c, x) {
      assert WindowEntryOk(sys, s1, c, x);
      AcceptKeepsEntry(sys, s, q, s1, c, x);
    }
    ServerChange(sys, sys');
  }

  /** Looking a client up without accepting anything at most opens an empty window for it. */
  lemma KeepLookup(sys: System, s: nat, c: nat)
    requires Inv(sys)
    ensures Inv(SetWin(sys, s, c, Win(sys, s, c)))
  {
    var sys' := SetWin(sys, s, c, Win(sys, s, c));
    assert forall s1, c1 :: Win(sys', s1, c1) == Win(sys, s1, c1);
    forall i | 0 <= i < |sys.jobs| ensures JobOk(sys', sys'.jobs[i]) {
      assert JobOk(sys, sys.jobs[i]);
    }
    forall s1, c1, x ensures WindowEntryOk(sys', s1, c1, x) {
      assert WindowEntryOk(sys, s1, c1, x);
    }
    ServerChange(sys, sys');
  }

  /** A replayed reply is the recorded result of the call's own job. */
  lemma ReplayHasJob(sys: System, s: nat, c: nat, x: nat)
    requires WindowEntryOk(sys, s, c, x) && x in Win(sys, s, c) && Win(sys, s, c)[x].Some?
    ensures HasJob(sys, c, x, Win(sys, s, c)[x].value)
  {
    var i :| 0 <= i < |sys.jobs| && Explains(sys.jobs[i], s, c, x, Win(sys, s, c)[x]);
    assert Answered(sys.jobs[i], c, x, Win(sys, s, c)[x].value);
  }

  lemma KeepUnchecked(sys: System, s: nat, q: Request)
    requires Inv(sys) && s in sys.servers && q in sys.requests
    requires (q.srv == 0 || q.srv == s) && q.clt == 0
    ensures Inv(Accept(sys, s, q))
  {
    hide ClientOk, ResultsOk, ReplyOk;
    var sys' := Accept(sys, s, q);
    assert RequestOk(sys, q);
    forall i | 0 <= i < |sys.jobs| ensures JobOk(sys', sys'.jobs[i]) {
      assert JobOk(sys, sys.jobs[i]);
    }
    forall s1, c, x ensures WindowEntryOk(sys', s1, c, x) {
      assert WindowEntryOk(sys, s1, c, x);
      if x in Win(sys, s1, c) {
        var i :| 0 <= i < |sys.jobs| && Explains(sys.jobs[i], s1, c, x, Win(sys, s1, c)[x]);
        assert Explains(sys'.jobs[i], s1, c, x, Win(sys', s1, c)[x]);
      }
    }
    ServerChange(sys, sys');
  }

  lemma KeepDispatch(sys: System, s: nat, q: Request)
    requires Inv(sys) && s in sys.servers && q in sys.requests
    ensures Inv(Dispatch(sys, s, q))
  {
    hide JobsOk, RequestsOk, AtMostOnce, ClientOk, ResultsOk, ReplyOk;
    if q.srv != 0 && q.srv != s {
      KeepReply(sys, q, Result(OLDSRV_FAILURE, []));
    } else if q.clt == 0 {
      KeepUnchecked(sys, s, q);
    } else {
      var t := Win(sys, s, q.clt);
      var sys' := SetWin(sys, s, q.clt, t);
      KeepLookup(sys, s, q.clt);
      match Check(t, q.xid, q.xidRep).0
      case New => KeepAccept(sys, s, q);
      case InProgress =>
      case Done(res) =>
        assert WindowEntryOk(sys', s, q.clt, q.xid);
        ReplayHasJob(sys', s, q.clt, q.xid);
        KeepReply(sys', q, res);
      case Forgotten => KeepReply(sys', q, Result(ATMOSTONCE_FAILURE, []));
    }
  }

  // ---------------------------------------------------------------- every run

  lemma StepKeepsInv(sys: System, step: Step)
    requires Inv(sys) && Enabled(sys, step)
    ensures Inv(Apply(sys, step))
  {
    match step
    case NewClient(c) => KeepNewClient(sys, c);
    case NewServer(s) => KeepNewServer(sys, s);
    case Begin(c, proc) => KeepBegin(sys, c, proc);
    case Deliver(s, q) => KeepDispatch(sys, s, q);
    case Execute(j, res) => KeepMove(sys, j, Executed(res));
    case AddReply(j) => KeepAddReply(sys, j);
    case SendReply(j) => KeepSendReply(sys, j);
    case GotReply(rep) => KeepGotReply(sys, rep);
    case End(c, x) => KeepEnd(sys, c, x);
    case BindDone(c, x) =>
      var q :| q in sys.requests && q.clt == c && q.xid == x && q.proc == BIND;
      KeepBindDone(sys, c, q);
    case Cancel(c) => KeepCancel(sys, c);
  }

  lemma {:induction false} RunKeepsInv(steps: seq<Step>)
    ensures Inv(Run(steps))
  {
    if steps != [] {
      var sys, step := Run(steps[..|steps| - 1]), steps[|steps| - 1];
      RunKeepsInv(steps[..|steps| - 1]);
      if Enabled(sys, step) {
        StepKeepsInv(sys, step);
      }
    }
  }

  lemma RunExtends(steps: seq<Step>, step: Step)
    requires Enabled(Run(steps), step)
    ensures Run(steps + [step]) == Apply(Run(steps), step)
  {
    assert (steps + [step])[..|steps|] == steps;
  }
}
