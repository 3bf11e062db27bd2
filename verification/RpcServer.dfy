/** The server endpoint as an object: what `rpcs::dispatch` decides about a request before and after
    it runs the handler, proved to take the steps of the protocol. */
module RpcServer {
  import opened RpcTypes
  import opened ReplyWindow
  import opened RpcProtocol

  /** Run the handler, send a reply that is there already, or leave it to the thread that is at work. */
  datatype Action = RunHandler | Send(res: Result) | Ignore

  predicate Does(a: Action, q: Request, s: nat, sys: System, sys': System) {
    match a
    case RunHandler => sys'.jobs == sys.jobs + [Job(s, q, Accepted)] && sys'.replies == sys.replies
    case Send(res) => sys'.jobs == sys.jobs && sys'.replies == sys.replies + {Reply(q.clt, q.xid, res)}
    case Ignore => sys'.jobs == sys.jobs && sys'.replies == sys.replies
  }

  function ActionFor(v: Verdict): Action {
    match v
    case New => RunHandler
    case InProgress => Ignore
    case Done(res) => Send(res)
    case Forgotten => Send(Result(ATMOSTONCE_FAILURE, []))
  }

  lemma DispatchDoes(sys: System, s: nat, q: Request)
    requires (q.srv == 0 || q.srv == s) && q.clt != 0
    ensures var (v, t) := Check(Win(sys, s, q.clt), q.xid, q.xidRep);
      Does(ActionFor(v), q, s, sys, Dispatch(sys, s, q))
      && Dispatch(sys, s, q).windows == sys.windows[(s, q.clt) := t]
  {
    hide Check;
  }

  lemma RecordDoes(sys: System, j: nat)
    requires Enabled(sys, Step.AddReply(j))
    ensures var job := sys.jobs[j];
      Apply(sys, Step.AddReply(j)).windows ==
      if job.req.clt == 0 then sys.windows
      else sys.windows[(job.srv, job.req.clt) := Record(Win(sys, job.srv, job.req.clt), job.req.xid, job.phase.res)]
  {
  }

  class Rpcs {
    const nonce: nat
    const replies: ReplyWindows

    constructor (nonce: nat)
      ensures this.nonce == nonce && fresh(replies)
      ensures replies.Valid() && Lists(map[])
    {
      this.nonce := nonce;
      replies := new ReplyWindows();
    }

    /** The reply lists are this instance's windows in the protocol. */
    ghost predicate Mirrors(sys: System)
      reads this, replies
    {
      replies.Valid() && Lists(sys.windows)
    }

    ghost predicate Lists(windows: map<(nat, nat), Table>)
      reads this, replies
    {
      forall c: nat :: replies.TableOf(c) == if (nonce, c) in windows then windows[(nonce, c)] else map[]
    }

    /** Up to the handler: an old instance is named, a client without a nonce is served unchecked, and
        any other request is classified. */
    method Dispatch(ghost sys: System, q: Request) returns (a: Action)
      requires Mirrors(sys)
      modifies replies
      ensures Mirrors(RpcProtocol.Dispatch(sys, nonce, q))
      ensures Does(a, q, nonce, sys, RpcProtocol.Dispatch(sys, nonce, q))
    {
      if q.srv != 0 && q.srv != nonce {
        return Send(Result(OLDSRV_FAILURE, []));
      }
      if q.clt == 0 {
        return RunHandler;
      }
      DispatchDoes(sys, nonce, q);
      hide Check, RpcProtocol.Dispatch, Does;
      var stat := Classify(sys, q);
      match stat {
        case New => a := RunHandler;
        case InProgress => a := Ignore;
        case Done(res) => a := Send(res);
        case Forgotten => a := Send(Result(ATMOSTONCE_FAILURE, []));
      }
    }

    method Classify(ghost sys: System, q: Request) returns (stat: Verdict)
      requires Mirrors(sys)
      modifies replies
      ensures var (v, t) := Check(Win(sys, nonce, q.clt), q.xid, q.xidRep);
        stat == v && replies.Valid() && Lists(sys.windows[(nonce, q.clt) := t])
    {
      hide Check;
      stat := replies.CheckDuplicateAndUpdate(q.clt, q.xid, q.xidRep);
    }

    /** After the handler of job `j`: the reply is recorded for clients that have a nonce. */
    method Executed(ghost sys: System, ghost j: nat, q: Request, res: Result)
      requires Mirrors(sys) && Enabled(sys, Step.AddReply(j)) && sys.jobs[j] == Job(nonce, q, Phase.Executed(res))
      modifies replies
      ensures Mirrors(Apply(sys, Step.AddReply(j)))
    {
      RecordDoes(sys, j);
      hide Apply, Record;
      if q.clt > 0 {
        replies.AddReply(q.clt, q.xid, res);
      }
    }
  }
}
