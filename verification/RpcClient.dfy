/** The client endpoint as an object: each method is one section of `rpcc` that holds the lock, and
    is proved to take the step of the same name in the protocol. */
module RpcClient {
  import opened RpcTypes
  import opened XidWindow
  import opened RpcProtocol

  class Rpcc {
    const nonce: nat
    var next: nat
    var bound: bool
    var srv: nat
    var closing: bool
    var calls: map<nat, Option<Result>>
    const window: Window
    ghost var returned: map<nat, Result>

    ghost predicate Valid()
      reads this, window
    {
      window.Valid()
    }

    ghost function State(): Client
      reads this, window
    {
      Client(next, bound, srv, closing, calls, window.finished, returned)
    }

    constructor (nonce: nat)
      ensures Valid() && fresh(window)
      ensures this.nonce == nonce && State() == FRESH_CLIENT
    {
      this.nonce := nonce;
      next, bound, srv, closing := 1, false, 0, false;
      calls, returned := map[], map[];
      window := new Window();
    }

    /** Numbers the call and stamps its request, or refuses it with a code and no change. */
    method Begin(proc: nat) returns (code: int, q: Request)
      requires Valid()
      modifies this
      ensures Valid()
      ensures MayBegin(old(State()), proc) ==>
                code == 0 && q == Stamp(nonce, old(State()), proc) && State() == ClientBegin(old(State()))
      ensures !MayBegin(old(State()), proc) ==>
                State() == old(State())
                && code == if (proc == BIND) == bound then BIND_FAILURE else CANCEL_FAILURE
    {
      q := Request(nonce, next, proc, srv, window.list[0]);
      if (proc != BIND && !bound) || (proc == BIND && bound) {
        return BIND_FAILURE, q;
      }
      if closing {
        return CANCEL_FAILURE, q;
      }
      HeadIsFront(window.list, window.finished);
      calls := calls[next := None];
      next := next + 1;
      code := 0;
    }

    method GotReply(xid: nat, res: Result)
      requires Valid()
      modifies this, window
      ensures Valid()
      ensures State() == ClientGotReply(old(State()), xid, res)
    {
      window.UpdateXidRep(xid);
      if xid !in calls {
        return;
      }
      if calls[xid].None? {
        calls := calls[xid := Some(res)];
      }
    }

    method End(xid: nat) returns (res: Result)
      requires Valid() && xid in calls
      modifies this, window
      ensures Valid()
      ensures State() == ClientEnd(old(State()), xid)
      ensures xid in returned && res == returned[xid]
    {
      res := if calls[xid].Some? then calls[xid].value else Result(TIMEOUT_FAILURE, []);
      calls := calls - {xid};
      window.UpdateXidRep(xid);
      returned := returned[xid := res];
    }

    method BindDone(srv: nat)
      requires Valid()
      modifies this
      ensures Valid()
      ensures State() == ClientBindDone(old(State()), srv)
    {
      bound := true;
      this.srv := srv;
    }

    /** Every outstanding call is forced to fail, also one whose reply has already arrived. */
    method Cancel()
      requires Valid()
      modifies this
      ensures Valid()
      ensures State() == ClientCancel(old(State()))
    {
      var rest := calls.Keys;
      while rest != {}
        invariant Valid() && rest <= calls.Keys
        invariant unchanged(this`next) && unchanged(this`bound) && unchanged(this`srv) && unchanged(this`returned)
        invariant closing == old(closing)
        invariant calls.Keys == old(calls).Keys
        invariant forall x :: x in calls && x !in rest ==> calls[x] == Some(Result(CANCEL_FAILURE, []))
        decreases rest
      {
        var x :| x in rest;
        calls := calls[x := Some(Result(CANCEL_FAILURE, []))];
        rest := rest - {x};
      }
      if calls != map[] {
        closing := true;
      }
      assert calls == ClientCancel(old(State())).calls;
    }
  }
}
