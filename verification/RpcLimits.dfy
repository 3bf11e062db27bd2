/** Runs that show where the guarantees of the protocol end. */
module RpcLimits {
  import opened RpcTypes
  import opened XidWindow
  import opened RpcProtocol
  import opened RpcTheorems

  const ZERO_CALL := Request(0, 1, BIND, 0, 0)

  /** The same request of client 0 reaches instance 7 twice, and is accepted twice. */
  lemma AcceptedTwice() returns (steps: seq<Step>)
    ensures Run(steps).jobs == [Job(7, ZERO_CALL, Accepted), Job(7, ZERO_CALL, Accepted)]
  {
    assert Run([]) == INITIAL;
    hide Run;
    steps := [];
    RunExtends(steps, NewServer(7));
    steps := steps + [NewServer(7)];
    RunExtends(steps, NewClient(0));
    steps := steps + [NewClient(0)];
    assert Front({0}) == 0;
    RunExtends(steps, Begin(0, BIND));
    steps := steps + [Begin(0, BIND)];
    assert ZERO_CALL in Run(steps).requests;
    RunExtends(steps, Deliver(7, ZERO_CALL));
    steps := steps + [Deliver(7, ZERO_CALL)];
    RunExtends(steps, Deliver(7, ZERO_CALL));
    steps := steps + [Deliver(7, ZERO_CALL)];
  }

  /** A client with nonce zero asks for no at-most-once service: a duplicate request runs again. */
  lemma NonceZeroRunsTwice() returns (steps: seq<Step>)
    ensures Executions(steps, Anywhere(0, 1)) == 2
  {
    var res := Result(0, [7]);
    var job := Job(7, ZERO_CALL, Executed(res));
    hide Run;
    steps := AcceptedTwice();
    RunExtends(steps, Execute(0, res));
    steps := steps + [Execute(0, res)];
    RunExtends(steps, Execute(1, res));
    steps := steps + [Execute(1, res)];
    ExecutionsAreCounted(steps, Anywhere(0, 1));
    CountAfterAppend([job], job, Anywhere(0, 1));
    CountAfterAppend([], job, Anywhere(0, 1));
    assert Run(steps).jobs == [job] + [job];
    assert [] + [job] == [job];
  }

  const BIND_CALL := Request(5, 1, BIND, 0, 0)
  const BOUND_TO_7 := Result(0, [7])

  /** The bind call of client 5 reaches two instances. */
  lemma BindAcceptedTwice() returns (steps: seq<Step>)
    ensures Run(steps).jobs == [Job(7, BIND_CALL, Accepted), Job(8, BIND_CALL, Accepted)]
  {
    assert Run([]) == INITIAL;
    hide Run;
    steps := [];
    RunExtends(steps, NewServer(7));
    steps := steps + [NewServer(7)];
    RunExtends(steps, NewServer(8));
    steps := steps + [NewServer(8)];
    RunExtends(steps, NewClient(5));
    steps := steps + [NewClient(5)];
    assert Front({0}) == 0;
    RunExtends(steps, Begin(5, BIND));
    steps := steps + [Begin(5, BIND)];
    assert BIND_CALL in Run(steps).requests;
    RunExtends(steps, Deliver(7, BIND_CALL));
    steps := steps + [Deliver(7, BIND_CALL)];
    RunExtends(steps, Deliver(8, BIND_CALL));
    steps := steps + [Deliver(8, BIND_CALL)];
  }

  /** Bind is not addressed to an instance, so it may run at several: once at each. */
  lemma BindRunsAtTwoInstances() returns (steps: seq<Step>)
    ensures Executions(steps, Anywhere(5, 1)) == 2
  {
    var seven, eight := Result(0, [7]), Result(0, [8]);
    var first, second := Job(7, BIND_CALL, Executed(seven)), Job(8, BIND_CALL, Executed(eight));
    hide Run;
    steps := BindAcceptedTwice();
    RunExtends(steps, Execute(0, seven));
    steps := steps + [Execute(0, seven)];
    RunExtends(steps, Execute(1, eight));
    steps := steps + [Execute(1, eight)];
    ExecutionsAreCounted(steps, Anywhere(5, 1));
    CountAfterAppend([first], second, Anywhere(5, 1));
    CountAfterAppend([], first, Anywhere(5, 1));
    assert Run(steps).jobs == [first] + [second];
    assert [] + [first] == [first];
  }

  /** Client 5 binds to instance 7; its bind call is accepted, executed, answered and finished. */
  lemma BoundClient() returns (steps: seq<Step>)
    ensures 5 in Run(steps).clients && 7 in Run(steps).servers
    ensures Run(steps).clients[5] == Client(2, true, 7, false, map[], {0, 1}, map[1 := BOUND_TO_7])
    ensures Win(Run(steps), 7, 5) == map[1 := Some(BOUND_TO_7)]
  {
    var rep := Reply(5, 1, BOUND_TO_7);
    assert Run([]) == INITIAL;
    hide Run;
    steps := [];
    RunExtends(steps, NewServer(7));
    steps := steps + [NewServer(7)];
    RunExtends(steps, NewClient(5));
    steps := steps + [NewClient(5)];
    assert Front({0}) == 0;
    RunExtends(steps, Begin(5, BIND));
    steps := steps + [Begin(5, BIND)];
    assert Run(steps).requests == {BIND_CALL};
    RunExtends(steps, Deliver(7, BIND_CALL));
    steps := steps + [Deliver(7, BIND_CALL)];
    assert Win(Run(steps), 7, 5) == map[1 := None];
    RunExtends(steps, Execute(0, BOUND_TO_7));
    steps := steps + [Execute(0, BOUND_TO_7)];
    RunExtends(steps, AddReply(0));
    steps := steps + [AddReply(0)];
    assert Win(Run(steps), 7, 5) == map[1 := Some(BOUND_TO_7)];
    RunExtends(steps, SendReply(0));
    steps := steps + [SendReply(0)];
    assert rep in Run(steps).replies;
    RunExtends(steps, GotReply(rep));
    steps := steps + [GotReply(rep)];
    RunExtends(steps, End(5, 1));
    steps := steps + [End(5, 1)];
    assert BIND_CALL in Run(steps).requests;
    assert Run(steps).clients[5].returned == map[1 := BOUND_TO_7];
    RunExtends(steps, BindDone(5, 1));
    steps := steps + [BindDone(5, 1)];
    assert Run(steps).clients[5].calls == map[];
    assert Run(steps).clients[5].finished == {0, 1};
  }

  const CALL_3 := Request(5, 3, 2, 7, 1)
  const CALL_4 := Request(5, 4, 2, 7, 2)

  /** Call 2 times out before the server sees it, so call 4 acknowledges it. */
  lemma UnseenCallFinishes() returns (steps: seq<Step>)
    ensures 5 in Run(steps).clients && 7 in Run(steps).servers
    ensures 3 in Run(steps).clients[5].calls && Run(steps).clients[5].calls[3] == None
    ensures CALL_3 in Run(steps).requests && CALL_4 in Run(steps).requests
    ensures Win(Run(steps), 7, 5) == map[1 := Some(BOUND_TO_7)]
  {
    hide Run;
    steps := BoundClient();
    FrontIsUnique({0, 1}, 1);
    RunExtends(steps, Begin(5, 2));
    steps := steps + [Begin(5, 2)];
    RunExtends(steps, Begin(5, 2));
    steps := steps + [Begin(5, 2)];
    RunExtends(steps, End(5, 2));
    steps := steps + [End(5, 2)];
    assert Run(steps).clients[5].finished == {0, 1, 2};
    FrontIsUnique({0, 1, 2}, 2);
    RunExtends(steps, Begin(5, 2));
    steps := steps + [Begin(5, 2)];
  }

  /** Finishing a call that the server never accepted can make the server forget a younger call that
      it never saw: call 3, which the client is still waiting for, is answered with a failure. */
  lemma FalseForgotten() returns (steps: seq<Step>)
    ensures 5 in Run(steps).clients && 3 in Run(steps).clients[5].calls
    ensures Run(steps).clients[5].calls[3] == None
    ensures Reply(5, 3, Result(ATMOSTONCE_FAILURE, [])) in Run(steps).replies
  {
    hide Run;
    steps := UnseenCallFinishes();
    RunExtends(steps, Deliver(7, CALL_4));
    steps := steps + [Deliver(7, CALL_4)];
    assert Win(Run(steps), 7, 5) == map[4 := None];
    RunExtends(steps, Deliver(7, CALL_3));
    steps := steps + [Deliver(7, CALL_3)];
  }
}
