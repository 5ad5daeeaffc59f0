/**
  The thread pool over the blocking queue itself: every Push and Pop is the
  queue's own sequence of steps, interleaved with everything else. The pool
  refines the pool over an atomic queue, so what holds there holds here; that
  shutdown neither deadlocks nor runs on for ever is proved here anew.
 */
module PoolOverQueue {
  import opened Options
  import Q = BlockingQueue
  import TP = ThreadPool

  type Task = TP.Task
  type Item = Option<Task>

  /** Where a worker is in its loop; while it is in Pop, the queue knows more. */
  datatype Worker = NotStarted | Ready | InPop | Running(task: Task) | Exited

  datatype StopPhase = NotCalled | BeforePush(k: nat) | InPush(k: nat) | Joining(k: nat) | Returned

  /** Workers are threads 0 to n - 1 of the queue, Stop runs in thread n, and later threads call Add. */
  datatype Pool = Pool(q: Q.State<Item>, workers: seq<Worker>, started: nat, stop: StopPhase,
                       added: seq<Task>, ran: seq<Task>)

  datatype Label =
    | StartOne | CallStop | JoinNext | Finish(w: nat)
    | BeginPop(w: nat) | EndPop(w: nat)
    | BeginNull | EndNull
    | BeginAdd(a: nat, task: Task) | EndAdd(a: nat)
    | Inside(step: Q.Label<Item>)             // a step within some Push or Pop

  function N(p: Pool): nat { |p.workers| }

  function Thread(p: Pool, t: nat): Q.Thread<Item> { if t in p.q.threads then p.q.threads[t] else Q.Idle }

  /** The step the queue takes, if it takes one. */
  function QueueStep(p: Pool, l: Label): Option<Q.Label<Item>> {
    match l
    case BeginPop(w) => Some(Q.Begin(w, Q.PopOp))
    case EndPop(w) => Some(Q.Leave(w))
    case BeginNull => Some(Q.Begin(N(p), Q.PushOp(None)))
    case EndNull => Some(Q.Leave(N(p)))
    case BeginAdd(a, task) => Some(Q.Begin(a, Q.PushOp(Some(task))))
    case EndAdd(a) => Some(Q.Leave(a))
    case Inside(step) => Some(step)
    case _ => None
  }

  predicate Enabled(p: Pool, l: Label) {
    && (QueueStep(p, l).Some? ==> Q.Enabled(p.q, QueueStep(p, l).value))
    && match l
       case StartOne => p.started < N(p) && p.stop.NotCalled?
       case CallStop => p.stop.NotCalled? && p.started == N(p)
       case JoinNext => p.stop.Joining? && p.stop.k < N(p) && p.workers[p.stop.k].Exited?
       case Finish(w) => w < N(p) && p.workers[w].Running?
       case BeginPop(w) => w < N(p) && p.workers[w].Ready?
       case EndPop(w) => w < N(p) && p.workers[w].InPop? && Result(Thread(p, w)).Some?
       case BeginNull => p.stop.BeforePush?
       case EndNull => p.stop.InPush?
       case BeginAdd(a, _) => a > N(p)
       case EndAdd(a) => a > N(p)
       case Inside(step) => !step.Begin? && !step.Leave?
  }

  function Result(th: Q.Thread<Item>): Option<Item> { if th.Notifying? || th.Leaving? then th.res else None }

  /** What the worker does with an item it has popped. */
  function Fetched(x: Item): Worker { if x.Some? then Running(x.value) else Exited }

  function AfterPush(k: nat, n: nat): StopPhase { if k + 1 == n then Joining(0) else BeforePush(k + 1) }

  /** The task that enters the queue with this step, if one does. */
  function Entering(p: Pool, step: Q.Label<Item>): seq<Task> {
    var th := Thread(p, step.t);
    if step.Act? && th.Checking? && th.op.PushOp? && th.op.x.Some? then [th.op.x.value] else []
  }

  function Next(p: Pool, l: Label): Pool
    requires Enabled(p, l)
  {
    var r := if QueueStep(p, l).Some? then p.(q := Q.Next(p.q, QueueStep(p, l).value)) else p;
    match l
    case StartOne => r.(workers := p.workers[p.started := Ready], started := p.started + 1)
    case CallStop => r.(stop := BeforePush(0))
    case JoinNext => r.(stop := if p.stop.k + 1 == N(p) then Returned else Joining(p.stop.k + 1))
    case Finish(w) => r.(workers := p.workers[w := Ready], ran := p.ran + [p.workers[w].task])
    case BeginPop(w) => r.(workers := p.workers[w := InPop])
    case EndPop(w) => r.(workers := p.workers[w := Fetched(Result(Thread(p, w)).value)])
    case BeginNull => r.(stop := InPush(p.stop.k))
    case EndNull => r.(stop := AfterPush(p.stop.k, N(p)))
    case BeginAdd(_, _) => r
    case EndAdd(_) => r
    case Inside(step) => r.(added := p.added + Entering(p, step))
  }

  predicate Initial(p: Pool) {
    && p.workers != [] && p.started == 0 && p.stop.NotCalled? && p.added == [] && p.ran == []
    && Q.Initial(p.q) && p.q.capacity == N(p)
    && (forall t :: 0 <= t <= N(p) ==> t in p.q.threads)
    && forall w :: 0 <= w < N(p) ==> p.workers[w].NotStarted?
  }

  predicate IsRun(p: Pool, ls: seq<Label>)
    decreases |ls|
  {
    ls == [] || (Enabled(p, ls[0]) && IsRun(Next(p, ls[0]), ls[1..]))
  }

  function After(p: Pool, ls: seq<Label>): Pool
    requires IsRun(p, ls)
    decreases |ls|
  {
    if ls == [] then p else After(Next(p, ls[0]), ls[1..])
  }

  // ---------------------------------------------------------------------
  // What ties the pool to the queue
  // ---------------------------------------------------------------------

  /** A worker is busy in the queue exactly while it is in Pop, and Pop always brings something. */
  predicate WorkerTied(p: Pool, w: nat)
    requires w < N(p)
  {
    && w in p.q.threads
    && var th := p.q.threads[w];
       && (th.Idle? <==> !p.workers[w].InPop?)
       && (!th.Idle? ==> th.op.PopOp?)
       && (th.Notifying? || th.Leaving? ==> th.res.Some?)
       && (p.workers[w].NotStarted? <==> p.started <= w)
  }

  predicate StopperTied(p: Pool) {
    && N(p) in p.q.threads
    && var th := p.q.threads[N(p)];
       && (th.Idle? <==> !p.stop.InPush?)
       && (!th.Idle? ==> th.op == Q.PushOp(None))
       && (!p.stop.NotCalled? ==> p.started == N(p))
       && (p.stop.BeforePush? || p.stop.InPush? || p.stop.Joining? ==> p.stop.k < N(p))
  }

  predicate AdderTied(p: Pool, a: nat) {
    var th := Thread(p, a);
    !th.Idle? ==> th.op.PushOp? && th.op.x.Some?
  }

  ghost predicate Tied(p: Pool) {
    && 0 < N(p) == p.q.capacity && p.started <= N(p)
    && (forall w {:trigger WorkerTied(p, w)} :: 0 <= w < N(p) ==> WorkerTied(p, w))
    && StopperTied(p)
    && (forall a {:trigger AdderTied(p, a)} :: N(p) < a ==> AdderTied(p, a))
  }

  ghost predicate Inv(p: Pool) { Q.Inv(p.q) && Tied(p) }

  /** A queue step changes the thread that takes it, and a notified one only from waiting to woken. */
  lemma OtherThreads(q: Q.State<Item>, l: Q.Label<Item>, t: nat)
    requires Q.Enabled(q, l) && t in q.threads && t != l.t
    ensures var th := Q.Next(q, l).threads[t];
            || th == q.threads[t]
            || (l.Notify? && l.w == Some(t) && q.threads[t].Waiting? && th == Q.Woken(q.threads[t].op, true))
  {
  }

  lemma SameThreads(q: Q.State<Item>, l: Q.Label<Item>)
    requires Q.Enabled(q, l)
    ensures Q.Next(q, l).threads.Keys == q.threads.Keys && Q.Next(q, l).capacity == q.capacity
  {
  }

  /** A step within a call leaves the caller in it, with the same operation. */
  lemma InsideStaysInCall(q: Q.State<Item>, l: Q.Label<Item>)
    requires Q.Enabled(q, l) && !l.Begin? && !l.Leave?
    ensures var before, th := q.threads[l.t], Q.Next(q, l).threads[l.t];
            && !before.Idle? && !th.Idle? && th.op == before.op
            && (l.Act? <==> th.Notifying?)
            && (th.Notifying? && th.op.PopOp? ==> th.res == Some(q.queue[0]))
            && (th.Leaving? ==> before.Notifying? && th.res == before.res)
  {
  }

  lemma WorkerStaysTied(p: Pool, l: Label, w: nat)
    requires w < N(p) && WorkerTied(p, w) && StopperTied(p) && Enabled(p, l)
    ensures w < N(Next(p, l)) && WorkerTied(Next(p, l), w)
  {
    if QueueStep(p, l).Some? {
      var step := QueueStep(p, l).value;
      if step.t != w {
        OtherThreads(p.q, step, w);
      } else if l.Inside? {
        InsideStaysInCall(p.q, step);
      }
    }
  }

  lemma StopperStaysTied(p: Pool, l: Label)
    requires 0 < N(p) && StopperTied(p) && Enabled(p, l)
    ensures StopperTied(Next(p, l))
  {
    if QueueStep(p, l).Some? {
      var step := QueueStep(p, l).value;
      if step.t != N(p) {
        OtherThreads(p.q, step, N(p));
      } else if l.Inside? {
        InsideStaysInCall(p.q, step);
      }
    }
  }

  lemma AdderStaysTied(p: Pool, l: Label, a: nat)
    requires AdderTied(p, a) && Enabled(p, l) && N(p) < a
    ensures AdderTied(Next(p, l), a)
  {
    if QueueStep(p, l).Some? {
      var step := QueueStep(p, l).value;
      SameThreads(p.q, step);
      if a in p.q.threads && step.t != a {
        OtherThreads(p.q, step, a);
      } else if a in p.q.threads && l.Inside? {
        InsideStaysInCall(p.q, step);
      }
    }
  }

  lemma StepKeepsInv(p: Pool, l: Label)
    requires Inv(p) && Enabled(p, l)
    ensures Inv(Next(p, l))
  {
    var r := Next(p, l);
    if QueueStep(p, l).Some? {
      Q.StepKeepsInv(p.q, QueueStep(p, l).value);
      SameThreads(p.q, QueueStep(p, l).value);
    }
    forall w | 0 <= w < N(r) ensures WorkerTied(r, w) {
      assert WorkerTied(p, w);
      WorkerStaysTied(p, l, w);
    }
    forall a | N(r) < a ensures AdderTied(r, a) {
      assert AdderTied(p, a);
      AdderStaysTied(p, l, a);
    }
    StopperStaysTied(p, l);
  }

  // ---------------------------------------------------------------------
  // The pool over the atomic queue that it refines
  // ---------------------------------------------------------------------

  /** A pop takes effect when the queue changes, before the call returns. */
  function AbsWorker(p: Pool, w: nat): TP.Worker
    requires w < N(p)
  {
    match p.workers[w]
    case NotStarted => TP.NotStarted
    case Ready => TP.Fetching
    case Running(task) => TP.Running(task)
    case Exited => TP.Exited
    case InPop => AbsFetched(Result(Thread(p, w)))
  }

  function AbsFetched(res: Option<Item>): TP.Worker {
    match res
    case None => TP.Fetching
    case Some(None) => TP.Exited
    case Some(Some(task)) => TP.Running(task)
  }

  predicate Pushed(th: Q.Thread<Item>) { th.Notifying? || th.Leaving? }

  function AbsStop(p: Pool): TP.StopPhase {
    match p.stop
    case NotCalled => TP.NotCalled
    case BeforePush(k) => TP.Pushing(k)
    case InPush(k) =>
      if !Pushed(Thread(p, N(p))) then TP.Pushing(k)
      else if k + 1 == N(p) then TP.Joining(0) else TP.Pushing(k + 1)
    case Joining(k) => TP.Joining(k)
    case Returned => TP.Returned
  }

  function Abs(p: Pool): (a: TP.Pool)
    ensures |a.workers| == |a.nulls| == N(p) && a.queue == p.q.queue
    ensures forall w :: 0 <= w < N(p) ==> a.workers[w] == AbsWorker(p, w)
    ensures forall w :: 0 <= w < N(p) ==> a.nulls[w] == if AbsWorker(p, w).Exited? then 1 else 0
  {
    TP.Pool(p.q.queue, seq(N(p), w requires 0 <= w < N(p) => AbsWorker(p, w)), p.started, AbsStop(p), p.added, p.ran,
            seq(N(p), w requires 0 <= w < N(p) => if AbsWorker(p, w).Exited? then 1 else 0))
  }

  /** The step of the atomic pool that this one is, if it is one. */
  function AbsStep(p: Pool, l: Label): Option<TP.Label> {
    match l
    case StartOne => Some(TP.StartOne)
    case CallStop => Some(TP.CallStop)
    case JoinNext => Some(TP.JoinNext)
    case Finish(w) => Some(TP.Finish(w))
    case Inside(step) =>
      if !step.Act? then None
      else if step.t < N(p) then Some(TP.Pop(step.t))
      else if step.t == N(p) then Some(TP.PushNull)
      else if Entering(p, step) == [] then None
      else Some(if p.stop.NotCalled? then TP.Add(Entering(p, step)[0]) else TP.LateAdd(Entering(p, step)[0]))
    case _ => None
  }

  lemma AbsWorkerAfter(p: Pool, l: Label, w: nat)
    requires w < N(p) && WorkerTied(p, w) && Enabled(p, l)
    ensures AbsWorker(Next(p, l), w) ==
            if l == StartOne && w == p.started then TP.Fetching
            else if l == Finish(w) then TP.Fetching
            else if l == Inside(Q.Act(w)) && p.q.queue != [] then AbsFetched(Some(p.q.queue[0]))
            else AbsWorker(p, w)
  {
    if QueueStep(p, l).Some? {
      var step := QueueStep(p, l).value;
      if step.t != w {
        OtherThreads(p.q, step, w);
      } else if l.Inside? {
        InsideStaysInCall(p.q, step);
      }
    }
  }

  lemma AbsStopAfter(p: Pool, l: Label)
    requires StopperTied(p) && Enabled(p, l)
    ensures AbsStop(Next(p, l)) ==
            if l == CallStop then TP.Pushing(0)
            else if l == JoinNext then if p.stop.k + 1 == N(p) then TP.Returned else TP.Joining(p.stop.k + 1)
            else if l == Inside(Q.Act(N(p))) && p.stop.InPush? then
              if p.stop.k + 1 == N(p) then TP.Joining(0) else TP.Pushing(p.stop.k + 1)
            else AbsStop(p)
  {
    if QueueStep(p, l).Some? {
      var step := QueueStep(p, l).value;
      if step.t != N(p) {
        OtherThreads(p.q, step, N(p));
      } else if l.Inside? {
        InsideStaysInCall(p.q, step);
      }
    }
  }

  /** The worker that changes in the atomic pool, with what it becomes. */
  lemma AbsWorkers(p: Pool, l: Label, i: nat, w: TP.Worker)
    requires Tied(p) && Enabled(p, l) && i < N(p) && AbsWorker(Next(p, l), i) == w
    requires (l == StartOne && i == p.started) || l == Finish(i) || l == Inside(Q.Act(i))
    ensures Abs(Next(p, l)).workers == Abs(p).workers[i := w]
    ensures Abs(Next(p, l)).nulls == Abs(p).nulls[i := if w.Exited? then 1 else 0]
  {
    forall j | 0 <= j < N(p) && j != i ensures AbsWorker(Next(p, l), j) == AbsWorker(p, j) {
      assert WorkerTied(p, j);
      AbsWorkerAfter(p, l, j);
    }
  }

  lemma AbsWorkersStay(p: Pool, l: Label)
    requires Tied(p) && Enabled(p, l) && l != StartOne && !l.Finish?
    requires !(l.Inside? && l.step.Act? && l.step.t < N(p))
    ensures Abs(Next(p, l)).workers == Abs(p).workers && Abs(Next(p, l)).nulls == Abs(p).nulls
  {
    forall j | 0 <= j < N(p) ensures AbsWorker(Next(p, l), j) == AbsWorker(p, j) {
      assert WorkerTied(p, j);
      AbsWorkerAfter(p, l, j);
    }
  }

  /** `m` takes the atomic pool from what `p` stands for to what its next state stands for. */
  ghost predicate Refines(p: Pool, l: Label, m: TP.Label)
    requires Enabled(p, l)
  {
    TP.Enabled(Abs(p), m) && TP.Next(Abs(p), m) == Abs(Next(p, l))
  }

  lemma PopRefines(p: Pool, l: Label, w: nat)
    requires Inv(p) && Enabled(p, l) && l == Inside(Q.Act(w)) && w < N(p)
    ensures Refines(p, l, TP.Pop(w))
  {
    assert WorkerTied(p, w) && StopperTied(p);
    AbsWorkerAfter(p, l, w);
    AbsWorkers(p, l, w, AbsFetched(Some(p.q.queue[0])));
    AbsStopAfter(p, l);
  }

  lemma PushNullRefines(p: Pool, l: Label)
    requires Inv(p) && Enabled(p, l) && l == Inside(Q.Act(N(p)))
    ensures Refines(p, l, TP.PushNull)
  {
    assert StopperTied(p);
    AbsWorkersStay(p, l);
    AbsStopAfter(p, l);
  }

  lemma AddRefines(p: Pool, l: Label)
    requires Inv(p) && Enabled(p, l) && l.Inside? && l.step.Act? && N(p) < l.step.t
    ensures AbsStep(p, l).Some? && Refines(p, l, AbsStep(p, l).value)
  {
    assert AdderTied(p, l.step.t);
    AbsWorkersStay(p, l);
    AbsStopAfter(p, l);
  }

  lemma WorkerStepRefines(p: Pool, l: Label)
    requires Tied(p) && Enabled(p, l) && (l == StartOne || l.Finish?)
    ensures Refines(p, l, AbsStep(p, l).value)
  {
    var w := if l == StartOne then p.started else l.w;
    assert WorkerTied(p, w);
    AbsWorkerAfter(p, l, w);
    AbsWorkers(p, l, w, TP.Fetching);
    AbsStopAfter(p, l);
  }

  lemma StopStepRefines(p: Pool, l: Label)
    requires Tied(p) && Enabled(p, l) && (l == CallStop || l == JoinNext)
    ensures Refines(p, l, AbsStep(p, l).value)
  {
    AbsWorkersStay(p, l);
    AbsStopAfter(p, l);
  }

  lemma OtherStepStutters(p: Pool, l: Label)
    requires Tied(p) && Enabled(p, l) && AbsStep(p, l).None?
    requires l.Inside? ==> !l.step.Act?
    ensures Abs(Next(p, l)) == Abs(p)
  {
    AbsWorkersStay(p, l);
    AbsStopAfter(p, l);
  }

  /** Every step is a step of the atomic pool or changes nothing there. */
  lemma StepRefines(p: Pool, l: Label)
    requires Inv(p) && Enabled(p, l)
    ensures match AbsStep(p, l)
            case Some(m) => Refines(p, l, m)
            case None => Abs(Next(p, l)) == Abs(p)
  {
    if l.Inside? && l.step.Act? {
      if l.step.t < N(p) {
        PopRefines(p, l, l.step.t);
      } else if l.step.t == N(p) {
        PushNullRefines(p, l);
      } else {
        AddRefines(p, l);
      }
    } else if l == StartOne || l.Finish? {
      WorkerStepRefines(p, l);
    } else if l == CallStop || l == JoinNext {
      StopStepRefines(p, l);
    } else {
      OtherStepStutters(p, l);
    }
  }

  /** The run of the atomic pool that a run stands for. */
  function AbsRun(p: Pool, ls: seq<Label>): seq<TP.Label>
    requires IsRun(p, ls)
    decreases |ls|
  {
    if ls == [] then []
    else
      var m := AbsStep(p, ls[0]);
      (if m.Some? then [m.value] else []) + AbsRun(Next(p, ls[0]), ls[1..])
  }

  /** Every run of this pool is, seen through `Abs`, a run of the atomic one. */
  lemma {:induction false} RunsRefine(p: Pool, ls: seq<Label>)
    requires Inv(p) && IsRun(p, ls)
    ensures Inv(After(p, ls))
    ensures TP.IsRun(Abs(p), AbsRun(p, ls)) && TP.After(Abs(p), AbsRun(p, ls)) == Abs(After(p, ls))
    decreases |ls|
  {
    if ls != [] {
      var next, rest := Next(p, ls[0]), AbsRun(Next(p, ls[0]), ls[1..]);
      StepKeepsInv(p, ls[0]);
      StepRefines(p, ls[0]);
      RunsRefine(next, ls[1..]);
      match AbsStep(p, ls[0])
      case Some(m) => TP.RunCons(Abs(p), m, rest, Abs(next));
      case None => assert [] + rest == rest;
    }
  }

  lemma InitialRefines(p: Pool)
    requires Initial(p)
    ensures Inv(p) && TP.Initial(Abs(p))
  {
    Q.InitialInv(p.q);
    forall w | 0 <= w < N(p) ensures WorkerTied(p, w) {
    }
  }

  // ---------------------------------------------------------------------
  // What shutdown guarantees
  // ---------------------------------------------------------------------

  /**
    When Stop returns, the queue holds exactly the tasks that entered it after
    the last null, and everything that was added has run exactly if there are
    none. In particular nothing is lost if no task enters once Stop is called.
   */
  lemma LostExactlyIfTooLate(p: Pool, ls: seq<Label>)
    requires Initial(p) && IsRun(p, ls) && After(p, ls).stop.Returned?
    ensures TP.IsRun(Abs(p), AbsRun(p, ls))
    ensures var r, late := After(p, ls), TP.TooLate(Abs(p), AbsRun(p, ls));
            && r.q.queue == TP.Somes(late)
            && multiset(r.added) == multiset(r.ran) + multiset(late)
            && (multiset(r.ran) == multiset(r.added) <==> late == [])
            && (TP.Disciplined(AbsRun(p, ls)) ==> late == [])
  {
    InitialRefines(p);
    RunsRefine(p, ls);
    TP.LostExactlyIfTooLate(Abs(p), AbsRun(p, ls));
    if TP.Disciplined(AbsRun(p, ls)) {
      TP.NoneTooLate(Abs(p), AbsRun(p, ls));
    }
  }

  /** A step that neither begins a new Add nor is a spurious wakeup. */
  predicate Forced(l: Label) { !l.BeginAdd? && !(l.Inside? && l.step.Spurious?) }

  /** If the queue can move, so can the pool. */
  lemma LiftProgress(p: Pool, step: Q.Label<Item>) returns (l: Label)
    requires Inv(p) && Q.Progress(p.q, step)
    ensures Enabled(p, l) && Forced(l)
  {
    if !step.Leave? {
      l := Inside(step);
    } else if step.t < N(p) {
      assert WorkerTied(p, step.t);
      l := EndPop(step.t);
    } else {
      l := if step.t == N(p) then EndNull else EndAdd(step.t);
    }
  }

  /** A worker outside the queue that has not met its null can go on. */
  lemma WorkerCanGoOn(p: Pool, w: nat) returns (l: Label)
    requires w < N(p) && WorkerTied(p, w) && Thread(p, w).Idle? && p.started == N(p) && !p.workers[w].Exited?
    ensures Enabled(p, l) && Forced(l)
  {
    l := if p.workers[w].Running? then Finish(w) else BeginPop(w);
  }

  /** While nulls are missing, or with nothing left to pop, the atomic pool tells who has not met one. */
  lemma SomeoneLeft(a: TP.Pool) returns (w: nat)
    requires TP.NullsCounted(a) && TP.NullsPushed(a) < |a.workers|
    ensures w < |a.workers| && !a.workers[w].Exited?
  {
    TP.ExitsBounded(a.workers);
    w :| 0 <= w < |a.workers| && !a.workers[w].Exited?;
  }

  lemma NobodyLeft(a: TP.Pool)
    requires TP.NullsCounted(a) && TP.AllPushed(a) && a.queue == []
    ensures forall w :: 0 <= w < |a.workers| ==> a.workers[w].Exited?
  {
    TP.ExitsBounded(a.workers);
  }

  /** In a quiet queue nobody waits to pop while there is something to pop. */
  lemma NobodyWaitsToPop(p: Pool, w: nat)
    requires Q.Inv(p.q) && Q.Quiet(p.q) && p.q.queue != [] && w < N(p) && WorkerTied(p, w)
    ensures Thread(p, w).Idle?
  {
    Q.QuietWaiters(p.q);
    assert p.q.threads[w].Waiting? ==> Q.SomeWaiter(p.q.threads, false);
  }

  /** Between the call of Stop and its return, somebody can move, and needs no new call or spurious wakeup for it. */
  lemma ShutdownNeverStuck(p: Pool) returns (l: Label)
    requires Inv(p) && TP.NullsCounted(Abs(p)) && !p.stop.NotCalled? && !p.stop.Returned?
    ensures Enabled(p, l) && Forced(l)
  {
    assert StopperTied(p);
    if !Q.Quiet(p.q) {
      var step := Q.BusyCanProgress(p.q);
      l := LiftProgress(p, step);
    } else if p.stop.BeforePush? {
      l := BeginNull;
    } else if p.stop.Joining? && p.workers[p.stop.k].Exited? {
      l := JoinNext;
    } else {
      var w := QuietWorker(p);
      l := WorkerCanGoOn(p, w);
    }
  }

  lemma QuietWorker(p: Pool) returns (w: nat)
    requires Inv(p) && TP.NullsCounted(Abs(p)) && Q.Quiet(p.q)
    requires p.stop.InPush? || (p.stop.Joining? && p.stop.k < N(p) && !p.workers[p.stop.k].Exited?)
    ensures w < N(p) && WorkerTied(p, w) && Thread(p, w).Idle? && p.started == N(p) && !p.workers[w].Exited?
  {
    assert StopperTied(p);
    if p.stop.InPush? {
      assert p.q.threads[N(p)].Waiting? && Q.SomeWaiter(p.q.threads, true);
      Q.QuietWaiters(p.q);
      w := SomeoneLeft(Abs(p));
    } else {
      w := p.stop.k;
      assert WorkerTied(p, w);
      if p.q.queue == [] {
        NobodyLeft(Abs(p));
        assert AbsWorker(p, w).Exited?;
      }
    }
    assert WorkerTied(p, w);
    if p.q.queue != [] {
      NobodyWaitsToPop(p, w);
    }
  }

  ghost predicate NoForcedStep(p: Pool) { forall l :: Enabled(p, l) ==> !Forced(l) }

  /** A run with Stop called that only new calls and spurious wakeups could extend has seen Stop return. */
  lemma MaximalRunsReturn(p: Pool, ls: seq<Label>)
    requires Initial(p) && IsRun(p, ls) && !After(p, ls).stop.NotCalled?
    requires NoForcedStep(After(p, ls))
    ensures After(p, ls).stop.Returned?
  {
    InitialRefines(p);
    RunsRefine(p, ls);
    TP.InitialCloses(Abs(p));
    TP.QueueEndsWithTooLate(Abs(p), AbsRun(p, ls), []);
    if !After(p, ls).stop.Returned? {
      var l := ShutdownNeverStuck(After(p, ls));
      assert false;
    }
  }

  // ---------------------------------------------------------------------
  // Shutdown comes to an end
  // ---------------------------------------------------------------------

  /** What a thread may still do on its own; a waiting one nothing. */
  function ThreadWork(th: Q.Thread<Item>): nat {
    match th
    case Idle => 0
    case Waiting(_) => 0
    case Checking(_, _) => 1
    case Woken(_, _) => 2
    case Entering(_) => 2
    case Leaving(_, _) => 5
    case Notifying(_, _) => 8
  }

  /** The same for worker `t`, or for Stop if `t` is n; the next call counts too if it is due. */
  function WorkAt(p: Pool, t: nat): nat {
    ThreadWork(Thread(p, t))
    + (if t < N(p) && p.workers[t].Ready? then 3 else 0)
    + (if t == N(p) && p.stop.BeforePush? then 3 else 0)
  }

  function Works(p: Pool): (s: seq<nat>)
    ensures |s| == N(p) + 1 && forall t :: 0 <= t <= N(p) ==> s[t] == WorkAt(p, t)
  {
    seq(N(p) + 1, t requires 0 <= t <= N(p) => WorkAt(p, t))
  }

  function Total(s: seq<nat>): nat { if s == [] then 0 else s[0] + Total(s[1..]) }

  lemma {:induction false} TotalAfter(s: seq<nat>, i: nat, x: nat)
    requires i < |s|
    ensures Total(s[i := x]) + s[i] == Total(s) + x
  {
    if i == 0 {
      assert s[i := x][1..] == s[1..];
    } else {
      TotalAfter(s[1..], i - 1, x);
      assert s[i := x][1..] == s[1..][i - 1 := x];
    }
  }

  /** All that is left to do: ten for every step of the atomic pool, and the small steps already due. */
  function Work(p: Pool): int { 10 * TP.Remaining(Abs(p)) + Total(Works(p)) }

  ghost predicate AddersIdle(p: Pool) { forall a :: N(p) < a ==> Thread(p, a).Idle? }

  /** The thread, among workers and Stop, that takes the step. */
  function Mover(p: Pool, l: Label): nat {
    match l
    case Finish(w) => w
    case BeginPop(w) => w
    case EndPop(w) => w
    case Inside(step) => step.t
    case _ => N(p)
  }

  predicate Notified(l: Label, t: nat) { l.Inside? && l.step.Notify? && l.step.w == Some(t) }

  lemma AddersStayIdle(p: Pool, l: Label)
    requires Enabled(p, l) && AddersIdle(p) && !l.BeginAdd?
    ensures AddersIdle(Next(p, l)) && !l.EndAdd? && (l.Inside? ==> l.step.t <= N(p))
  {
    if l.Inside? {
      assert !Thread(p, l.step.t).Idle?;
    }
    forall a | N(p) < a ensures Thread(Next(p, l), a).Idle? && l != EndAdd(a) {
      assert Thread(p, a).Idle?;
      if QueueStep(p, l).Some? {
        SameThreads(p.q, QueueStep(p, l).value);
        if a in p.q.threads && QueueStep(p, l).value.t != a {
          OtherThreads(p.q, QueueStep(p, l).value, a);
        }
      }
    }
  }

  lemma OtherWork(p: Pool, l: Label, t: nat)
    requires StopperTied(p) && (t < N(p) ==> WorkerTied(p, t))
    requires Enabled(p, l) && !p.stop.NotCalled? && t <= N(p) && t != Mover(p, l)
    ensures if Notified(l, t) then WorkAt(p, t) == 0 && WorkAt(Next(p, l), t) == 2
            else WorkAt(Next(p, l), t) == WorkAt(p, t)
  {
    if QueueStep(p, l).Some? && t != QueueStep(p, l).value.t {
      OtherThreads(p.q, QueueStep(p, l).value, t);
    }
  }

  lemma MoverWork(p: Pool, l: Label)
    requires StopperTied(p) && (Mover(p, l) < N(p) ==> WorkerTied(p, Mover(p, l)))
    requires Enabled(p, l) && !p.stop.NotCalled? && Forced(l) && !l.EndAdd? && Mover(p, l) <= N(p)
    ensures var m := Mover(p, l);
            WorkAt(Next(p, l), m) + (if l.Inside? && l.step.Notify? then 3 else 1)
            <= WorkAt(p, m) + if AbsStep(p, l).Some? then 10 else 0
  {
  }

  lemma SpuriousWork(p: Pool, l: Label)
    requires Enabled(p, l) && l.Inside? && l.step.Spurious? && l.step.t <= N(p)
    ensures WorkAt(Next(p, l), l.step.t) == WorkAt(p, l.step.t) + 2 && AbsStep(p, l).None?
  {
  }

  /** One entry changes, or two if somebody is notified. */
  lemma TotalWork(p: Pool, l: Label)
    requires Tied(p) && Enabled(p, l) && !p.stop.NotCalled? && Mover(p, l) <= N(p)
    ensures Total(Works(Next(p, l))) + WorkAt(p, Mover(p, l))
         <= Total(Works(p)) + WorkAt(Next(p, l), Mover(p, l)) + if l.Inside? && l.step.Notify? then 2 else 0
  {
    var r, m := Next(p, l), Mover(p, l);
    forall t | 0 <= t <= N(p) && t != m
      ensures WorkAt(r, t) == if Notified(l, t) then 2 else WorkAt(p, t)
    {
      assert t < N(p) ==> WorkerTied(p, t);
      OtherWork(p, l, t);
    }
    var one := Works(p)[m := WorkAt(r, m)];
    TotalAfter(Works(p), m, WorkAt(r, m));
    if l.Inside? && l.step.Notify? && l.step.w.Some? && l.step.w.value <= N(p) && l.step.w.value != m {
      var w := l.step.w.value;
      assert w < N(p) ==> WorkerTied(p, w);
      OtherWork(p, l, w);
      TotalAfter(one, w, 2);
      assert Works(r) == one[w := 2];
    } else {
      assert Works(r) == one;
    }
  }

  function Spurious(ls: seq<Label>): nat
    decreases |ls|
  {
    if ls == [] then 0 else (if ls[0].Inside? && ls[0].step.Spurious? then 1 else 0) + Spurious(ls[1..])
  }

  predicate NoNewAdds(ls: seq<Label>) { forall i :: 0 <= i < |ls| ==> !ls[i].BeginAdd? }

  /** Stop is under way over a sound pool, and no Add is. */
  ghost predicate Closing(p: Pool) { Inv(p) && TP.Inv(Abs(p)) && AddersIdle(p) && !p.stop.NotCalled? }

  /** A step uses up some of the work; a spurious wakeup makes at most two more. */
  lemma StepUsesUpWork(p: Pool, l: Label)
    requires Closing(p) && Enabled(p, l) && !l.BeginAdd?
    ensures Closing(Next(p, l))
    ensures Work(Next(p, l)) + 1 <= Work(p) + if Forced(l) then 0 else 3
  {
    AddersStayIdle(p, l);
    StepKeepsInv(p, l);
    StepRefines(p, l);
    if AbsStep(p, l).Some? {
      TP.StepKeepsInv(Abs(p), AbsStep(p, l).value);
      TP.StepUsesUpWork(Abs(p), AbsStep(p, l).value);
    }
    TotalWork(p, l);
    if Forced(l) {
      assert StopperTied(p) && (Mover(p, l) < N(p) ==> WorkerTied(p, Mover(p, l)));
      MoverWork(p, l);
    } else {
      SpuriousWork(p, l);
    }
  }

  lemma WorkLeft(p: Pool)
    requires Closing(p)
    ensures Work(p) >= 0
  {
    TP.ExitsBounded(Abs(p).workers);
  }

  /**
    Once Stop is called with no Add under way, a run without new Adds is no
    longer than the work left, plus three steps for every spurious wakeup. With
    `ShutdownNeverStuck`, Stop returns unless there is no end of those.
   */
  lemma {:induction false} ShutdownTerminates(p: Pool, ls: seq<Label>)
    requires Closing(p) && IsRun(p, ls) && NoNewAdds(ls)
    ensures |ls| <= Work(p) + 3 * Spurious(ls)
    decreases |ls|
  {
    if ls == [] {
      WorkLeft(p);
    } else {
      StepUsesUpWork(p, ls[0]);
      ShutdownTerminates(Next(p, ls[0]), ls[1..]);
    }
  }

  /** The same from the start: `before` leads to a state with Stop called after all Adds have returned. */
  lemma EveryShutdownTerminates(p: Pool, before: seq<Label>, ls: seq<Label>)
    requires Initial(p) && IsRun(p, before) && TP.Disciplined(AbsRun(p, before))
    requires var r := After(p, before); !r.stop.NotCalled? && AddersIdle(r) && IsRun(r, ls) && NoNewAdds(ls)
    ensures |ls| <= Work(After(p, before)) + 3 * Spurious(ls)
  {
    InitialRefines(p);
    RunsRefine(p, before);
    TP.InitialInv(Abs(p));
    TP.RunsKeepInv(Abs(p), AbsRun(p, before));
    ShutdownTerminates(After(p, before), ls);
  }

  // ---------------------------------------------------------------------
  // One run from start to end
  // ---------------------------------------------------------------------

  /** A pool with one worker (thread 0), Stop (thread 1) and one thread that adds (thread 2). */
  function Small(queue: seq<Item>, ths: seq<Q.Thread<Item>>, pushed: seq<Item>, popped: seq<Item>,
                 w: Worker, stop: StopPhase, added: seq<Task>, ran: seq<Task>): Pool
    requires |ths| == 3
  {
    Pool(Q.State(1, queue, None, map[0 := ths[0], 1 := ths[1], 2 := ths[2]], pushed, popped), [w],
         if w.NotStarted? then 0 else 1, stop, added, ran)
  }

  const IDLE: seq<Q.Thread<Item>> := [Q.Idle, Q.Idle, Q.Idle]

  ghost predicate Reaches(p: Pool, q: Pool) {
    exists ls :: IsRun(p, ls) && After(p, ls) == q
  }

  lemma StepFirst(p: Pool, l: Label, r: Pool)
    requires Enabled(p, l) && Reaches(Next(p, l), r)
    ensures Reaches(p, r)
  {
    var ls :| IsRun(Next(p, l), ls) && After(Next(p, l), ls) == r;
    assert ([l] + ls)[1..] == ls;
    assert IsRun(p, [l] + ls);
  }

  /** The pool when the call is about to leave the queue. */
  function AfterCall(p: Pool, t: nat, op: Q.Op<Item>): Pool
    requires op.PopOp? ==> p.q.queue != []
  {
    match op
    case PushOp(x) =>
      p.(q := p.q.(queue := p.q.queue + [x], pushed := p.q.pushed + [x], holder := Some(t),
                   threads := p.q.threads[t := Q.Leaving(op, None)]),
         added := p.added + if x.Some? then [x.value] else [])
    case PopOp =>
      p.(q := p.q.(queue := p.q.queue[1..], popped := p.q.popped + [p.q.queue[0]], holder := Some(t),
                   threads := p.q.threads[t := Q.Leaving(op, Some(p.q.queue[0]))]))
  }

  /** A call that nobody disturbs, from entering to leaving the queue. */
  lemma Undisturbed(p: Pool, t: nat, op: Q.Op<Item>, r: Pool)
    requires t in p.q.threads && p.q.threads[t] == Q.Entering(op) && p.q.holder == None
    requires forall u :: u in p.q.threads ==> !p.q.threads[u].Waiting?
    requires !Q.Blocked(p.q, op) && Reaches(AfterCall(p, t, op), r)
    ensures Reaches(p, r)
  {
    var p1 := Next(p, Inside(Q.Acquire(t)));
    var p2 := Next(p1, Inside(Q.Act(t)));
    assert Next(p2, Inside(Q.Notify(t, None))) == AfterCall(p, t, op);
    StepFirst(p2, Inside(Q.Notify(t, None)), r);
    StepFirst(p1, Inside(Q.Act(t)), r);
    StepFirst(p, Inside(Q.Acquire(t)), r);
  }

  lemma AddCalled(task: Task, r: Pool)
    requires var op := Q.PushOp(Some(task));
             Reaches(Small([], [Q.Idle, Q.Idle, Q.Entering(op)], [], [], Ready, NotCalled, [], []), r)
    ensures Reaches(Small([], IDLE, [], [], Ready, NotCalled, [], []), r)
  {
    var p := Small([], IDLE, [], [], Ready, NotCalled, [], []);
    var op := Q.PushOp(Some(task));
    assert Next(p, BeginAdd(2, task))
        == Small([], [Q.Idle, Q.Idle, Q.Entering(op)], [], [], Ready, NotCalled, [], []);
    StepFirst(p, BeginAdd(2, task), r);
  }

  lemma AddPhase(task: Task, r: Pool)
    requires Reaches(Small([Some(task)], IDLE, [Some(task)], [], Ready, NotCalled, [task], []), r)
    ensures Reaches(Small([], IDLE, [], [], Ready, NotCalled, [], []), r)
  {
    var op := Q.PushOp(Some(task));
    var entered := Small([], [Q.Idle, Q.Idle, Q.Entering(op)], [], [], Ready, NotCalled, [], []);
    var left := AfterCall(entered, 2, op);
    assert Next(left, EndAdd(2)) == Small([Some(task)], IDLE, [Some(task)], [], Ready, NotCalled, [task], []);
    StepFirst(left, EndAdd(2), r);
    Undisturbed(entered, 2, op, r);
    AddCalled(task, r);
  }

  /** The worker's call of Pop, returning. */
  lemma PopReturns(x: Item, pushed: seq<Item>, popped: seq<Item>, stop: StopPhase, added: seq<Task>, ran: seq<Task>,
                   r: Pool)
    requires Reaches(Small([], IDLE, pushed, popped + [x], Fetched(x), stop, added, ran), r)
    ensures var entered := Small([x], [Q.Entering(Q.PopOp), Q.Idle, Q.Idle], pushed, popped, InPop, stop, added, ran);
            Reaches(AfterCall(entered, 0, Q.PopOp), r)
  {
    var entered := Small([x], [Q.Entering(Q.PopOp), Q.Idle, Q.Idle], pushed, popped, InPop, stop, added, ran);
    var left := AfterCall(entered, 0, Q.PopOp);
    assert Next(left, EndPop(0)) == Small([], IDLE, pushed, popped + [x], Fetched(x), stop, added, ran);
    StepFirst(left, EndPop(0), r);
  }

  /** The worker's call of Pop, entered. */
  lemma PopCalled(x: Item, pushed: seq<Item>, popped: seq<Item>, stop: StopPhase, added: seq<Task>, ran: seq<Task>,
                  r: Pool)
    requires Reaches(Small([x], [Q.Entering(Q.PopOp), Q.Idle, Q.Idle], pushed, popped, InPop, stop, added, ran), r)
    ensures Reaches(Small([x], IDLE, pushed, popped, Ready, stop, added, ran), r)
  {
    var p := Small([x], IDLE, pushed, popped, Ready, stop, added, ran);
    var entered := Small([x], [Q.Entering(Q.PopOp), Q.Idle, Q.Idle], pushed, popped, InPop, stop, added, ran);
    assert Next(p, BeginPop(0)) == entered;
    StepFirst(p, BeginPop(0), r);
  }

  lemma PopPhase(x: Item, pushed: seq<Item>, popped: seq<Item>, stop: StopPhase, added: seq<Task>, ran: seq<Task>,
                 r: Pool)
    requires Reaches(Small([], IDLE, pushed, popped + [x], Fetched(x), stop, added, ran), r)
    ensures Reaches(Small([x], IDLE, pushed, popped, Ready, stop, added, ran), r)
  {
    var entered := Small([x], [Q.Entering(Q.PopOp), Q.Idle, Q.Idle], pushed, popped, InPop, stop, added, ran);
    PopReturns(x, pushed, popped, stop, added, ran, r);
    Undisturbed(entered, 0, Q.PopOp, r);
    PopCalled(x, pushed, popped, stop, added, ran, r);
  }

  lemma NullCalled(x: Item, added: seq<Task>, r: Pool)
    requires var op: Q.Op<Item> := Q.PushOp(None);
             Reaches(Small([], [Q.Idle, Q.Entering(op), Q.Idle], [x], [x], Ready, InPush(0), added, added), r)
    ensures Reaches(Small([], IDLE, [x], [x], Ready, BeforePush(0), added, added), r)
  {
    var p := Small([], IDLE, [x], [x], Ready, BeforePush(0), added, added);
    var op: Q.Op<Item> := Q.PushOp(None);
    assert Next(p, BeginNull)
        == Small([], [Q.Idle, Q.Entering(op), Q.Idle], [x], [x], Ready, InPush(0), added, added);
    StepFirst(p, BeginNull, r);
  }

  lemma NullPhase(x: Item, added: seq<Task>, r: Pool)
    requires Reaches(Small([None], IDLE, [x, None], [x], Ready, Joining(0), added, added), r)
    ensures Reaches(Small([], IDLE, [x], [x], Ready, BeforePush(0), added, added), r)
  {
    var op: Q.Op<Item> := Q.PushOp(None);
    var entered := Small([], [Q.Idle, Q.Entering(op), Q.Idle], [x], [x], Ready, InPush(0), added, added);
    var left := AfterCall(entered, 1, op);
    assert Next(left, EndNull) == Small([None], IDLE, [x, None], [x], Ready, Joining(0), added, added);
    StepFirst(left, EndNull, r);
    Undisturbed(entered, 1, op, r);
    NullCalled(x, added, r);
  }

  /** Stop is called, and the worker runs the task. */
  lemma RunPhase(task: Task, r: Pool)
    requires Reaches(Small([], IDLE, [Some(task)], [Some(task)], Ready, BeforePush(0), [task], [task]), r)
    ensures Reaches(Small([Some(task)], IDLE, [Some(task)], [], Ready, NotCalled, [task], []), r)
  {
    var x := Some(task);
    var p := Small([x], IDLE, [x], [], Ready, NotCalled, [task], []);
    var running := Small([], IDLE, [x], [] + [x], Fetched(x), BeforePush(0), [task], []);
    assert Next(running, Finish(0)) == Small([], IDLE, [x], [x], Ready, BeforePush(0), [task], [task]);
    StepFirst(running, Finish(0), r);
    PopPhase(x, [x], [], BeforePush(0), [task], [], r);
    assert Next(p, CallStop) == Small([x], IDLE, [x], [], Ready, BeforePush(0), [task], []);
    StepFirst(p, CallStop, r);
  }

  /** The worker takes the null and exits, and Stop joins it. */
  lemma JoinPhase(x: Item, ts: seq<Task>)
    ensures Reaches(Small([None], IDLE, [x, None], [x], Ready, Joining(0), ts, ts),
                    Small([], IDLE, [x, None], [x, None], Exited, Returned, ts, ts))
  {
    var exited := Small([], IDLE, [x, None], [x] + [None], Fetched(None), Joining(0), ts, ts);
    var done := Small([], IDLE, [x, None], [x, None], Exited, Returned, ts, ts);
    assert IsRun(done, []) && After(done, []) == done;
    assert Next(exited, JoinNext) == done;
    StepFirst(exited, JoinNext, done);
    PopPhase(None, [x, None], [x], Joining(0), ts, ts, done);
  }

  /** The pool is constructed and started. */
  lemma StartPhase(r: Pool)
    requires Reaches(Small([], IDLE, [], [], Ready, NotCalled, [], []), r)
    ensures var p := Small([], IDLE, [], [], NotStarted, NotCalled, [], []); Initial(p) && Reaches(p, r)
  {
    var p := Small([], IDLE, [], [], NotStarted, NotCalled, [], []);
    assert Initial(p) by {
      assert Q.Initial(p.q);
      assert forall t :: 0 <= t <= 1 ==> t in p.q.threads;
    }
    assert Next(p, StartOne) == Small([], IDLE, [], [], Ready, NotCalled, [], []);
    StepFirst(p, StartOne, r);
  }

  /** A whole shutdown does happen: the pool starts, a task is added and run, Stop is called and returns. */
  lemma ShutdownHappens(task: Task) returns (p: Pool, r: Pool)
    ensures Initial(p) && Reaches(p, r)
    ensures r.stop.Returned? && r.added == r.ran == [task] && r.q.queue == []
  {
    p := Small([], IDLE, [], [], NotStarted, NotCalled, [], []);
    r := Small([], IDLE, [Some(task), None], [Some(task), None], Exited, Returned, [task], [task]);
    JoinPhase(Some(task), [task]);
    NullPhase(Some(task), [task], r);
    RunPhase(task, r);
    AddPhase(task, r);
    StartPhase(r);
  }
}
