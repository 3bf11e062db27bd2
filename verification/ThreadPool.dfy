/** The thread pool: a bounded queue of jobs, workers that take from its front, and a shutdown that
    puts one poison pill per worker behind the jobs. */
module ThreadPool {

  /** What stands in the queue; a job without a function is a pill. */
  datatype Job = Work(id: nat) | Pill

  datatype Worker = Waiting | Running(id: nat) | Exited

  /** `accepted`, `taken` and `finished` list jobs in the order in which that happened to them. */
  datatype Pool = Pool(
    blocking: bool, queue: seq<Job>, workers: seq<Worker>, closing: bool, pills: nat,
    accepted: seq<nat>, taken: seq<nat>, finished: seq<nat>)

  function Capacity(p: Pool): nat {
    100 * |p.workers|
  }

  /** A capacity of zero means that there is no bound. */
  predicate HasRoom<T>(queue: seq<T>, max: nat) {
    max == 0 || |queue| < max
  }

  function Started(size: nat, blocking: bool): Pool {
    Pool(blocking, [], seq(size, _ => Waiting), false, 0, [], [], [])
  }

  datatype Step =
    | AddJob(id: nat)
    | TakeJob(worker: nat)
    | FinishJob(worker: nat)
    | Shutdown
    | PutPill

  /** The owner shuts the pool down only when nobody adds jobs any more. A blocking `addJob` waits for
      room; one that does not block gives the job up. */
  predicate Enabled(p: Pool, step: Step) {
    match step
    case AddJob(_) => !p.closing && (HasRoom(p.queue, Capacity(p)) || !p.blocking)
    case TakeJob(w) => w < |p.workers| && p.workers[w].Waiting? && p.queue != []
    case FinishJob(w) => w < |p.workers| && p.workers[w].Running?
    case Shutdown => !p.closing
    case PutPill => p.closing && p.pills < |p.workers| && HasRoom(p.queue, Capacity(p))
  }

  function Apply(p: Pool, step: Step): Pool
    requires Enabled(p, step)
  {
    match step
    case AddJob(id) =>
      if HasRoom(p.queue, Capacity(p)) then p.(queue := p.queue + [Work(id)], accepted := p.accepted + [id]) else p
    case TakeJob(w) =>
      var job, rest := p.queue[0], p.queue[1..];
      if job.Work? then p.(queue := rest, workers := p.workers[w := Running(job.id)], taken := p.taken + [job.id])
      else p.(queue := rest, workers := p.workers[w := Exited])
    case FinishJob(w) => p.(workers := p.workers[w := Waiting], finished := p.finished + [p.workers[w].id])
    case Shutdown => p.(closing := true)
    case PutPill => p.(queue := p.queue + [Pill], pills := p.pills + 1)
  }

  /** The pool after a run; a step that cannot be taken is skipped. */
  function Run(size: nat, blocking: bool, steps: seq<Step>): Pool {
    if steps == [] then Started(size, blocking)
    else
      var p := Run(size, blocking, steps[..|steps| - 1]);
      var step := steps[|steps| - 1];
      if Enabled(p, step) then Apply(p, step) else p
  }

  // ---------------------------------------------------------------- counting

  function Ids(queue: seq<Job>): seq<nat> {
    if queue == [] then [] else OneId(queue[0]) + Ids(queue[1..])
  }

  function Pills(queue: seq<Job>): nat {
    if queue == [] then 0 else (if queue[0].Pill? then 1 else 0) + Pills(queue[1..])
  }

  function OneHolds(w: Worker, id: nat): nat {
    if w == Running(id) then 1 else 0
  }

  /** How many workers are running the job. */
  function Holders(workers: seq<Worker>, id: nat): nat {
    if workers == [] then 0 else OneHolds(workers[0], id) + Holders(workers[1..], id)
  }

  function OneBusy(w: Worker): nat {
    if w.Running? then 1 else 0
  }

  function Busy(workers: seq<Worker>): nat {
    if workers == [] then 0 else OneBusy(workers[0]) + Busy(workers[1..])
  }

  function OneExited(w: Worker): nat {
    if w.Exited? then 1 else 0
  }

  function Gone(workers: seq<Worker>): nat {
    if workers == [] then 0 else OneExited(workers[0]) + Gone(workers[1..])
  }

  function OneId(job: Job): seq<nat> {
    if job.Work? then [job.id] else []
  }

  lemma Associate(a: seq<nat>, b: seq<nat>, c: seq<nat>)
    ensures (a + b) + c == a + (b + c)
  {
  }

  lemma {:induction false} AppendIds(queue: seq<Job>, job: Job)
    ensures Ids(queue + [job]) == Ids(queue) + OneId(job)
  {
    if queue == [] {
      assert queue + [job] == [job] && [job][1..] == [];
      assert Ids([job]) == OneId(job) + Ids([]);
    } else {
      assert (queue + [job])[1..] == queue[1..] + [job];
      AppendIds(queue[1..], job);
      hide OneId;
      Associate(OneId(queue[0]), Ids(queue[1..]), OneId(job));
    }
  }

  lemma {:induction false} AppendPills(queue: seq<Job>, job: Job)
    ensures Pills(queue + [job]) == Pills(queue) + (if job.Pill? then 1 else 0)
  {
    if queue == [] {
      assert queue + [job] == [job] && [job][1..] == [];
    } else {
      assert (queue + [job])[1..] == queue[1..] + [job];
      AppendPills(queue[1..], job);
    }
  }

  lemma {:induction false} Update(workers: seq<Worker>, i: nat, w: Worker, id: nat)
    requires i < |workers|
    ensures Holders(workers[i := w], id) + OneHolds(workers[i], id) == Holders(workers, id) + OneHolds(w, id)
    ensures Gone(workers[i := w]) + OneExited(workers[i]) == Gone(workers) + OneExited(w)
    ensures Busy(workers[i := w]) + OneBusy(workers[i]) == Busy(workers) + OneBusy(w)
  {
    if i == 0 {
      assert workers[i := w][1..] == workers[1..];
    } else {
      assert workers[i := w][1..] == workers[1..][i - 1 := w];
      Update(workers[1..], i - 1, w, id);
    }
  }

  lemma {:induction false} AllWaiting(workers: seq<Worker>, id: nat)
    requires forall i :: 0 <= i < |workers| ==> workers[i].Waiting?
    ensures Holders(workers, id) == 0 && Gone(workers) == 0
  {
    if workers != [] {
      AllWaiting(workers[1..], id);
    }
  }

  lemma {:induction false} AllGone(workers: seq<Worker>, id: nat)
    requires forall i :: 0 <= i < |workers| ==> workers[i].Exited?
    ensures Holders(workers, id) == 0 && Gone(workers) == |workers|
  {
    if workers != [] {
      AllGone(workers[1..], id);
    }
  }

  lemma {:induction false} GoneBound(workers: seq<Worker>)
    ensures Gone(workers) <= |workers|
    ensures Gone(workers) == |workers| ==> forall i :: 0 <= i < |workers| ==> workers[i].Exited?
  {
    if workers != [] {
      GoneBound(workers[1..]);
    }
  }

  // ---------------------------------------------------------------- invariant

  /** Behind a pill stands nothing but pills. */
  predicate PillsLast(queue: seq<Job>) {
    forall i, j :: 0 <= i < j < |queue| && queue[i].Pill? ==> queue[j].Pill?
  }

  /** Every job that was taken has been finished or is being run, as often as it was taken. */
  ghost predicate Conserved(p: Pool) {
    forall id :: multiset(p.taken)[id] == multiset(p.finished)[id] + Holders(p.workers, id)
  }

  ghost predicate Inv(p: Pool) {
    && p.accepted == p.taken + Ids(p.queue)
    && Conserved(p)
    && p.pills == Pills(p.queue) + Gone(p.workers) <= |p.workers|
    && (!p.closing ==> p.pills == 0)
    && PillsLast(p.queue)
    && (Gone(p.workers) > 0 ==> Ids(p.queue) == [])
    && (Capacity(p) > 0 ==> |p.queue| <= Capacity(p))
  }

  lemma {:induction false} OnlyPills(queue: seq<Job>)
    requires forall i :: 0 <= i < |queue| ==> queue[i].Pill?
    ensures Ids(queue) == []
  {
    if queue != [] {
      OnlyPills(queue[1..]);
    }
  }

  lemma {:induction false} NoPills(queue: seq<Job>)
    requires Pills(queue) == 0
    ensures forall i :: 0 <= i < |queue| ==> queue[i].Work?
  {
    if queue != [] {
      NoPills(queue[1..]);
    }
  }

  /** What taking the front element does to the queue. */
  lemma FrontTaken(queue: seq<Job>)
    requires queue != [] && PillsLast(queue)
    ensures Ids(queue) == OneId(queue[0]) + Ids(queue[1..])
    ensures Pills(queue) == (if queue[0].Pill? then 1 else 0) + Pills(queue[1..])
    ensures PillsLast(queue[1..]) && (queue[0].Pill? ==> Ids(queue) == [])
  {
    if queue[0].Pill? {
      OnlyPills(queue);
    }
  }

  lemma KeepTakeConserved(p: Pool, w: nat)
    requires Inv(p) && Enabled(p, TakeJob(w))
    ensures Conserved(Apply(p, TakeJob(w)))
  {
    var p1 := Apply(p, TakeJob(w));
    forall id
      ensures multiset(p1.taken)[id] == multiset(p1.finished)[id] + Holders(p1.workers, id)
    {
      Update(p.workers, w, p1.workers[w], id);
    }
  }

  lemma KeepTakeWork(p: Pool, w: nat)
    requires Inv(p) && Enabled(p, TakeJob(w)) && p.queue[0].Work?
    ensures Inv(Apply(p, TakeJob(w)))
  {
    KeepTakeConserved(p, w);
    hide Conserved, Ids, Pills, Holders, PillsLast, Gone, Busy;
    FrontTaken(p.queue);
    Update(p.workers, w, Running(p.queue[0].id), 0);
    Associate(p.taken, [p.queue[0].id], Ids(p.queue[1..]));
  }

  lemma KeepTakePill(p: Pool, w: nat)
    requires Inv(p) && Enabled(p, TakeJob(w)) && p.queue[0].Pill?
    ensures Inv(Apply(p, TakeJob(w)))
  {
    KeepTakeConserved(p, w);
    hide Conserved, Ids, Pills, Holders, PillsLast, Gone, Busy;
    FrontTaken(p.queue);
    Update(p.workers, w, Exited, 0);
    assert [] + Ids(p.queue[1..]) == Ids(p.queue[1..]);
  }

  lemma KeepFinish(p: Pool, w: nat)
    requires Inv(p) && Enabled(p, FinishJob(w))
    ensures Inv(Apply(p, FinishJob(w)))
  {
    KeepFinishConserved(p, w);
    hide Conserved, Ids, Pills, Holders, PillsLast, Gone, Busy;
    Update(p.workers, w, Waiting, 0);
  }

  lemma KeepFinishConserved(p: Pool, w: nat)
    requires Conserved(p) && Enabled(p, FinishJob(w))
    ensures Conserved(Apply(p, FinishJob(w)))
  {
    hide Holders;
    var p1 := Apply(p, FinishJob(w));
    forall id
      ensures multiset(p1.taken)[id] == multiset(p1.finished)[id] + Holders(p1.workers, id)
    {
      Update(p.workers, w, Waiting, id);
    }
  }

  /** A job or a pill behind the others; behind pills only a pill. */
  lemma PutLast(queue: seq<Job>, job: Job)
    requires PillsLast(queue) && (job.Work? ==> Pills(queue) == 0)
    ensures PillsLast(queue + [job])
  {
    if job.Work? {
      NoPills(queue);
    }
  }

  lemma KeepAdd(p: Pool, id: nat)
    requires Inv(p) && Enabled(p, AddJob(id))
    ensures Inv(Apply(p, AddJob(id)))
  {
    AppendIds(p.queue, Work(id));
    AppendPills(p.queue, Work(id));
    PutLast(p.queue, Work(id));
    Associate(p.taken, Ids(p.queue), [id]);
    KeepConserved(p, Apply(p, AddJob(id)));
    hide Conserved, Ids, Pills, PillsLast, Gone;
  }

  lemma KeepConserved(p: Pool, p1: Pool)
    requires Conserved(p) && p1.taken == p.taken && p1.finished == p.finished && p1.workers == p.workers
    ensures Conserved(p1)
  {
  }

  lemma KeepPill(p: Pool)
    requires Inv(p) && Enabled(p, PutPill)
    ensures Inv(Apply(p, PutPill))
  {
    AppendIds(p.queue, Pill);
    AppendPills(p.queue, Pill);
    PutLast(p.queue, Pill);
    KeepConserved(p, Apply(p, PutPill));
    assert Ids(p.queue) + [] == Ids(p.queue);
    hide Conserved, Ids, Pills, PillsLast, Gone;
  }

  lemma StepKeepsInv(p: Pool, step: Step)
    requires Inv(p) && Enabled(p, step)
    ensures Inv(Apply(p, step))
  {
    hide Conserved, Ids, Pills, PillsLast, Gone;
    match step
    case AddJob(id) => KeepAdd(p, id);
    case TakeJob(w) =>
      if p.queue[0].Work? {
        KeepTakeWork(p, w);
      } else {
        KeepTakePill(p, w);
      }
    case FinishJob(w) => KeepFinish(p, w);
    case Shutdown => KeepConserved(p, p.(closing := true));
    case PutPill => KeepPill(p);
  }

  lemma StartedInv(size: nat, blocking: bool)
    ensures Inv(Started(size, blocking))
  {
    var p := Started(size, blocking);
    forall id
      ensures Holders(p.workers, id) == 0
    {
      AllWaiting(p.workers, id);
    }
    AllWaiting(p.workers, 0);
  }

  lemma {:induction false} RunKeepsInv(size: nat, blocking: bool, steps: seq<Step>)
    ensures Inv(Run(size, blocking, steps)) && |Run(size, blocking, steps).workers| == size
  {
    hide Inv;
    if steps == [] {
      StartedInv(size, blocking);
    } else {
      var p, step := Run(size, blocking, steps[..|steps| - 1]), steps[|steps| - 1];
      RunKeepsInv(size, blocking, steps[..|steps| - 1]);
      if Enabled(p, step) {
        StepKeepsInv(p, step);
      }
    }
  }

  // ---------------------------------------------------------------- theorems

  /** Jobs are taken in the order in which they were accepted, each at most once; a job that was taken
      has been finished or is in the hands of exactly one worker. */
  lemma TakenInOrder(size: nat, blocking: bool, steps: seq<Step>)
    ensures var p := Run(size, blocking, steps);
      && |p.taken| <= |p.accepted| && p.taken == p.accepted[..|p.taken|]
      && Conserved(p)
  {
    RunKeepsInv(size, blocking, steps);
  }

  /** A pool without workers takes jobs and never runs them. */
  lemma {:induction false} NoWorkersNoWork(blocking: bool, steps: seq<Step>)
    ensures Run(0, blocking, steps).taken == [] && Run(0, blocking, steps).workers == []
    ensures Run(0, blocking, steps).finished == []
  {
    if steps != [] {
      NoWorkersNoWork(blocking, steps[..|steps| - 1]);
    }
  }

  /** When every worker has left, every worker has swallowed one pill, and every job that was ever
      accepted has run to completion with nothing left in the queue: this holds exactly when the pool
      has workers at all, or never accepted a job. */
  lemma DrainedWhenAllExited(size: nat, blocking: bool, steps: seq<Step>)
    requires var p := Run(size, blocking, steps); forall w :: 0 <= w < |p.workers| ==> p.workers[w].Exited?
    ensures var p := Run(size, blocking, steps);
      && p.pills == size && Pills(p.queue) == 0
      && (p.queue == [] && p.taken == p.accepted && multiset(p.finished) == multiset(p.accepted)
          <==> size > 0 || p.accepted == [])
  {
    RunKeepsInv(size, blocking, steps);
    var p := Run(size, blocking, steps);
    AllGone(p.workers, 0);
    NoPills(p.queue);
    assert p.queue == [] || Ids(p.queue) != [];
    if size == 0 {
      NoWorkersNoWork(blocking, steps);
    }
    forall id
      ensures multiset(p.taken)[id] == multiset(p.finished)[id]
    {
      AllGone(p.workers, id);
    }
  }

  /** The work that is left once the pool is shutting down. */
  function Left(p: Pool): int {
    3 * (|p.workers| - p.pills) + 2 * |p.queue| + Busy(p.workers)
  }

  /** Every step of a pool that shuts down brings it closer to the end. */
  lemma ShutdownAdvances(p: Pool, step: Step)
    requires Inv(p) && p.closing && Enabled(p, step)
    ensures Apply(p, step).closing && 0 <= Left(Apply(p, step)) < Left(p)
  {
    StepKeepsInv(p, step);
    if step.TakeJob? || step.FinishJob? {
      Update(p.workers, step.worker, Apply(p, step).workers[step.worker], 0);
    }
  }

  /** And there always is a step until every worker has left: shutdown does not deadlock. */
  lemma ShutdownNeverStuck(p: Pool)
    requires Inv(p) && p.closing && |p.workers| > 0
    requires forall step :: !Enabled(p, step)
    ensures forall w :: 0 <= w < |p.workers| ==> p.workers[w].Exited?
  {
    forall w | 0 <= w < |p.workers|
      ensures p.workers[w].Exited?
    {
      assert !Enabled(p, FinishJob(w)) && !Enabled(p, TakeJob(w)) && !Enabled(p, PutPill);
      if p.workers[w].Waiting? {
        assert p.queue == [] && HasRoom(p.queue, Capacity(p));
        GoneBound(p.workers);
      }
    }
  }

  lemma RunOneMore(size: nat, blocking: bool, steps: seq<Step>, more: seq<Step>)
    requires more != []
    ensures steps + more == (steps + more[..|more| - 1]) + [more[|more| - 1]]
    ensures Enabled(Run(size, blocking, steps + more[..|more| - 1]), more[|more| - 1]) ==>
      Run(size, blocking, steps + more) == Apply(Run(size, blocking, steps + more[..|more| - 1]), more[|more| - 1])
  {
    assert (steps + more)[..|steps + more| - 1] == steps + more[..|more| - 1];
  }

  /** Every step of `more` is actually taken after `steps`. */
  predicate AllTaken(size: nat, blocking: bool, steps: seq<Step>, more: seq<Step>) {
    forall i :: 0 <= i < |more| ==> Enabled(Run(size, blocking, steps + more[..i]), more[i])
  }

  /** However a shutdown proceeds, it takes no more steps than there was work left, and where it can go
      no further every worker has exited. */
  lemma {:induction false} ShutdownEnds(size: nat, blocking: bool, steps: seq<Step>, more: seq<Step>)
    requires size > 0 && Run(size, blocking, steps).closing && AllTaken(size, blocking, steps, more)
    ensures Run(size, blocking, steps + more).closing
    ensures |more| + Left(Run(size, blocking, steps + more)) <= Left(Run(size, blocking, steps))
    ensures (forall step :: !Enabled(Run(size, blocking, steps + more), step)) ==>
      forall w :: 0 <= w < size ==> w < |Run(size, blocking, steps + more).workers| && Run(size, blocking, steps + more).workers[w].Exited?
    decreases |more|
  {
    hide Inv, Run, Enabled, Apply, Left;
    var p := Run(size, blocking, steps + more);
    RunKeepsInv(size, blocking, steps + more);
    if more == [] {
      assert steps + more == steps;
    } else {
      var n := |more| - 1;
      assert forall i :: 0 <= i < n ==> more[..n][..i] == more[..i];
      ShutdownEnds(size, blocking, steps, more[..n]);
      RunKeepsInv(size, blocking, steps + more[..n]);
      RunOneMore(size, blocking, steps, more);
      ShutdownAdvances(Run(size, blocking, steps + more[..n]), more[n]);
    }
    if forall step :: !Enabled(p, step) {
      ShutdownNeverStuck(p);
    }
  }

  lemma RunExtends(size: nat, blocking: bool, steps: seq<Step>, step: Step)
    requires Enabled(Run(size, blocking, steps), step)
    ensures Run(size, blocking, steps + [step]) == Apply(Run(size, blocking, steps), step)
  {
    assert (steps + [step])[..|steps|] == steps;
  }

  /** In every run, a job that is added is accepted exactly when the pool is not shutting down and its
      queue has room: a hundred jobs per worker, or any number without workers. */
  lemma JobAcceptedIff(size: nat, blocking: bool, steps: seq<Step>, id: nat)
    ensures var p, p1 := Run(size, blocking, steps), Run(size, blocking, steps + [AddJob(id)]);
      && p1.accepted == (if !p.closing && (size == 0 || |p.queue| < 100 * size) then p.accepted + [id] else p.accepted)
      && p1.taken == p.taken && p1.finished == p.finished
  {
    RunKeepsInv(size, blocking, steps);
    assert (steps + [AddJob(id)])[..|steps|] == steps;
  }

  /** Some step is possible during a shutdown that is not over. */
  lemma ShutdownCanAdvance(p: Pool)
    requires Inv(p) && p.closing && |p.workers| > 0 && !forall w :: 0 <= w < |p.workers| ==> p.workers[w].Exited?
    ensures exists step :: Enabled(p, step)
  {
    if forall step :: !Enabled(p, step) {
      ShutdownNeverStuck(p);
    }
  }

  lemma ShutdownAcceptsNothing(p: Pool, step: Step)
    requires p.closing && Enabled(p, step)
    ensures Apply(p, step).accepted == p.accepted
  {
  }

  lemma {:induction false} ShutdownCanEnd(size: nat, blocking: bool, steps: seq<Step>) returns (more: seq<Step>)
    requires size > 0 && Run(size, blocking, steps).closing
    ensures var p, p1 := Run(size, blocking, steps), Run(size, blocking, steps + more);
      p1.accepted == p.accepted && forall w :: 0 <= w < |p1.workers| ==> p1.workers[w].Exited?
    decreases Left(Run(size, blocking, steps))
  {
    hide Run, Inv, Apply, Enabled, Left;
    var p := Run(size, blocking, steps);
    RunKeepsInv(size, blocking, steps);
    if forall w :: 0 <= w < |p.workers| ==> p.workers[w].Exited? {
      more := [];
      assert steps + more == steps;
    } else {
      ShutdownCanAdvance(p);
      var step :| Enabled(p, step);
      ShutdownAdvances(p, step);
      ShutdownAcceptsNothing(p, step);
      RunExtends(size, blocking, steps, step);
      var rest := ShutdownCanEnd(size, blocking, steps + [step]);
      more := [step] + rest;
      assert steps + more == steps + [step] + rest;
    }
  }

  lemma CanShutDown(size: nat, blocking: bool, steps: seq<Step>) returns (begin: seq<Step>)
    ensures var p, p1 := Run(size, blocking, steps), Run(size, blocking, steps + begin);
      p1.closing && p1.accepted == p.accepted
  {
    if Run(size, blocking, steps).closing {
      begin := [];
      assert steps + begin == steps;
    } else {
      begin := [Shutdown];
      RunExtends(size, blocking, steps, Shutdown);
    }
  }

  /** From every reachable state of a pool with workers, shutting it down can be completed, and then every
      job that it ever accepted has been run to its end. */
  lemma PoolCanDrain(size: nat, blocking: bool, steps: seq<Step>) returns (more: seq<Step>)
    requires size > 0
    ensures var p, p1 := Run(size, blocking, steps), Run(size, blocking, steps + more);
      && p1.accepted == p.accepted && multiset(p1.finished) == multiset(p.accepted) && p1.queue == []
      && forall w :: 0 <= w < |p1.workers| ==> p1.workers[w].Exited?
  {
    hide Run, Pills;
    var begin := CanShutDown(size, blocking, steps);
    var rest := ShutdownCanEnd(size, blocking, steps + begin);
    more := begin + rest;
    assert steps + more == steps + begin + rest;
    DrainedWhenAllExited(size, blocking, steps + more);
  }

  // ---------------------------------------------------------------- the queue as an object

  class Fifo<T> {
    const max: nat
    var q: seq<T>

    constructor (limit: nat)
      ensures q == [] && max == limit
    {
      max, q := limit, [];
    }

    /** One turn of the waiting loop of `enq`: the element goes to the back if there is room. */
    method Enq(e: T) returns (ok: bool)
      modifies this
      ensures ok == HasRoom(old(q), max)
      ensures q == if ok then old(q) + [e] else old(q)
    {
      ok := max == 0 || |q| < max;
      if ok {
        q := q + [e];
      }
    }

    /** Takes the front element; tells whether a thread that waits for room should be woken. */
    method Deq() returns (e: T, room: bool)
      requires q != []
      modifies this
      ensures old(q) == [e] + q && room == (max > 0 && HasRoom(q, max))
    {
      e := q[0];
      q := q[1..];
      room := max > 0 && |q| < max;
    }
  }

  class ThrPool {
    const jobq: Fifo<Job>
    const blockadd: bool

    constructor (size: nat, blocking: bool)
      ensures fresh(jobq) && Holds(Started(size, blocking))
    {
      jobq := new Fifo(100 * size);
      blockadd := blocking;
    }

    /** This object's queue is the queue of the pool. */
    ghost predicate Holds(p: Pool)
      reads this, jobq
    {
      jobq.q == p.queue && jobq.max == Capacity(p) && blockadd == p.blocking
    }

    method AddJob(ghost p: Pool, id: nat) returns (ok: bool)
      requires Holds(p) && Enabled(p, Step.AddJob(id))
      modifies jobq
      ensures Holds(Apply(p, Step.AddJob(id)))
      ensures Apply(p, Step.AddJob(id)).accepted == if ok then p.accepted + [id] else p.accepted
    {
      ok := jobq.Enq(Work(id));
    }

    /** One worker takes a job; the answer false tells it to die. */
    method TakeJob(ghost p: Pool, worker: nat) returns (job: Job, alive: bool)
      requires Holds(p) && Enabled(p, Step.TakeJob(worker))
      modifies jobq
      ensures Holds(Apply(p, Step.TakeJob(worker)))
      ensures Apply(p, Step.TakeJob(worker)).workers[worker] == if job.Work? then Running(job.id) else Exited
      ensures alive == job.Work?
    {
      var room;
      job, room := jobq.Deq();
      alive := job.Work?;
    }

    method PutPill(ghost p: Pool)
      requires Holds(p) && Enabled(p, Step.PutPill)
      modifies jobq
      ensures Holds(Apply(p, Step.PutPill))
    {
      var ok := jobq.Enq(Pill);
    }
  }
}
