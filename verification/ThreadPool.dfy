/**
  The thread pool over the bounded queue: workers that pop and run tasks until
  they meet a null, and a shutdown that pushes one null per worker and joins
  them in order. Pushes and pops are atomic here; `PoolOverQueue` puts the pool
  over the blocking queue's own steps.
 */
module ThreadPool {
  import opened Options

  type Task = nat

  datatype Worker = NotStarted | Fetching | Running(task: Task) | Exited

  datatype StopPhase = NotCalled | Pushing(k: nat) | Joining(k: nat) | Returned

  /** The queue has one slot per worker; `None` is the null task. */
  datatype Pool = Pool(queue: seq<Option<Task>>, workers: seq<Worker>, started: nat, stop: StopPhase,
                       added: seq<Task>, ran: seq<Task>, nulls: seq<nat>)

  datatype Label = StartOne | Add(task: Task) | CallStop | PushNull | JoinNext | Pop(w: nat) | Finish(w: nat)
                 | LateAdd(late: Task)

  predicate Enabled(p: Pool, l: Label) {
    var n := |p.workers|;
    match l
    case StartOne => p.started < n && p.stop.NotCalled?
    case Add(_) => p.stop.NotCalled? && |p.queue| < n
    case CallStop => p.stop.NotCalled? && p.started == n
    case PushNull => p.stop.Pushing? && p.stop.k < n && |p.queue| < n
    case JoinNext => p.stop.Joining? && p.stop.k < n && p.workers[p.stop.k].Exited?
    case Pop(w) => w < n && w < |p.nulls| && p.workers[w].Fetching? && p.queue != []
    case Finish(w) => w < n && p.workers[w].Running?
    case LateAdd(_) => !p.stop.NotCalled? && |p.queue| < n
  }

  function Next(p: Pool, l: Label): Pool
    requires Enabled(p, l)
  {
    var n := |p.workers|;
    match l
    case StartOne => p.(workers := p.workers[p.started := Fetching], started := p.started + 1)
    case Add(task) => p.(queue := p.queue + [Some(task)], added := p.added + [task])
    case CallStop => p.(stop := Pushing(0))
    case PushNull =>
      p.(queue := p.queue + [None], stop := if p.stop.k + 1 == n then Joining(0) else Pushing(p.stop.k + 1))
    case JoinNext => p.(stop := if p.stop.k + 1 == n then Returned else Joining(p.stop.k + 1))
    case Pop(w) =>
      var rest := p.(queue := p.queue[1..]);
      (match p.queue[0]
       case Some(task) => rest.(workers := p.workers[w := Running(task)])
       case None => rest.(workers := p.workers[w := Exited], nulls := p.nulls[w := p.nulls[w] + 1]))
    case Finish(w) => p.(workers := p.workers[w := Fetching], ran := p.ran + [p.workers[w].task])
    case LateAdd(task) => p.(queue := p.queue + [Some(task)], added := p.added + [task])
  }

  predicate Initial(p: Pool) {
    && p.workers != [] && p.queue == [] && p.started == 0 && p.stop.NotCalled? && p.added == [] && p.ran == []
    && |p.nulls| == |p.workers|
    && forall i :: 0 <= i < |p.workers| ==> p.workers[i].NotStarted? && p.nulls[i] == 0
  }

  predicate IsRun(p: Pool, ls: seq<Label>)
    decreases |ls|
  {
    ls == [] || (Enabled(p, ls[0]) && IsRun(Next(p, ls[0]), ls[1..]))
  }

  function After(p: Pool, ls: seq<Label>): Pool
    requires IsRun(p, ls)
    decreases |ls|
  {
    if ls == [] then p else After(Next(p, ls[0]), ls[1..])
  }

  /** All Add calls finish before Stop is called. */
  predicate Disciplined(ls: seq<Label>) { forall i :: 0 <= i < |ls| ==> !ls[i].LateAdd? }

  // ---------------------------------------------------------------------
  // Counting
  // ---------------------------------------------------------------------

  function One(b: bool): nat { if b then 1 else 0 }

  /** How many workers are running `task`. */
  function Holding(ws: seq<Worker>, task: Task): nat {
    if ws == [] then 0 else One(ws[0] == Running(task)) + Holding(ws[1..], task)
  }

  function Busy(ws: seq<Worker>): nat {
    if ws == [] then 0 else One(ws[0].Running?) + Busy(ws[1..])
  }

  function Exits(ws: seq<Worker>): nat {
    if ws == [] then 0 else One(ws[0].Exited?) + Exits(ws[1..])
  }

  /** How often `x`, a task or the null, is queued. */
  function Queued(q: seq<Option<Task>>, x: Option<Task>): nat {
    if q == [] then 0 else One(q[0] == x) + Queued(q[1..], x)
  }

  lemma {:induction false} WorkersAfter(ws: seq<Worker>, i: nat, w: Worker)
    requires i < |ws|
    ensures Exits(ws[i := w]) + One(ws[i].Exited?) == Exits(ws) + One(w.Exited?)
    ensures Busy(ws[i := w]) + One(ws[i].Running?) == Busy(ws) + One(w.Running?)
  {
    if i == 0 {
      assert ws[i := w][1..] == ws[1..];
    } else {
      WorkersAfter(ws[1..], i - 1, w);
      assert ws[i := w][1..] == ws[1..][i - 1 := w];
    }
  }

  lemma {:induction false} HoldingAfter(ws: seq<Worker>, i: nat, w: Worker, task: Task)
    requires i < |ws|
    ensures Holding(ws[i := w], task) + One(ws[i] == Running(task)) == Holding(ws, task) + One(w == Running(task))
  {
    if i == 0 {
      assert ws[i := w][1..] == ws[1..];
    } else {
      HoldingAfter(ws[1..], i - 1, w, task);
      assert ws[i := w][1..] == ws[1..][i - 1 := w];
    }
  }

  lemma {:induction false} QueuedAfterPush(q: seq<Option<Task>>, x: Option<Task>, y: Option<Task>)
    ensures Queued(q + [x], y) == Queued(q, y) + One(x == y)
  {
    if q == [] {
      assert q + [x] == [x];
    } else {
      QueuedAfterPush(q[1..], x, y);
      assert (q + [x])[1..] == q[1..] + [x];
    }
  }

  lemma {:induction false} ExitsBounded(ws: seq<Worker>)
    ensures Exits(ws) <= |ws|
    ensures Exits(ws) == |ws| <==> forall i :: 0 <= i < |ws| ==> ws[i].Exited?
  {
    if ws != [] {
      ExitsBounded(ws[1..]);
      assert forall i :: 1 <= i < |ws| ==> ws[i] == ws[1..][i - 1];
    }
  }

  lemma {:induction false} NobodyHolds(ws: seq<Worker>, task: Task)
    requires forall i :: 0 <= i < |ws| ==> !ws[i].Running?
    ensures Holding(ws, task) == 0
  {
    if ws != [] {
      NobodyHolds(ws[1..], task);
    }
  }

  lemma {:induction false} NotQueued(q: seq<Option<Task>>, x: Option<Task>)
    ensures Queued(q, x) == 0 <==> x !in q
    ensures Queued(q, x) <= |q|
  {
    if q != [] {
      NotQueued(q[1..], x);
      assert x in q <==> x == q[0] || x in q[1..];
    }
  }

  // ---------------------------------------------------------------------
  // The invariant
  // ---------------------------------------------------------------------

  /** How many nulls Stop has pushed. */
  function NullsPushed(p: Pool): nat {
    match p.stop
    case NotCalled => 0
    case Pushing(k) => k
    case Joining(_) => |p.workers|
    case Returned => |p.workers|
  }

  /** Nulls are only ever behind the tasks. */
  predicate NullsLast(q: seq<Option<Task>>) {
    forall i, j :: 0 <= i < j < |q| && q[i].None? ==> q[j].None?
  }

  predicate NoTasks(q: seq<Option<Task>>) { forall i :: 0 <= i < |q| ==> q[i].None? }

  /** Every addition of `task` is accounted for: finished, in progress, or queued. */
  predicate Conserved(p: Pool, task: Task) {
    multiset(p.added)[task] == multiset(p.ran)[task] + Holding(p.workers, task) + Queued(p.queue, Some(task))
  }

  /** Workers from `started` on have not begun. */
  predicate StartedInOrder(p: Pool) { forall i :: p.started <= i < |p.workers| ==> p.workers[i].NotStarted? }

  predicate WorkersInOrder(p: Pool) {
    && |p.nulls| == |p.workers|
    && forall i :: 0 <= i < |p.workers| ==>
         && (p.workers[i].NotStarted? <==> p.started <= i)
         && p.nulls[i] == if p.workers[i].Exited? then 1 else 0
  }

  predicate StopInOrder(p: Pool) {
    match p.stop
    case NotCalled => None !in p.queue
    case Pushing(k) => k < |p.workers| && p.started == |p.workers|
    case Joining(k) => k < |p.workers| && p.started == |p.workers| && AllExited(p.workers, k)
    case Returned => AllExited(p.workers, |p.workers|)
  }

  predicate AllExited(ws: seq<Worker>, k: nat) { k <= |ws| && forall i :: 0 <= i < k ==> ws[i].Exited? }

  /** Who is where, and where the nulls are. */
  predicate Shape(p: Pool) {
    && 0 < |p.workers| && |p.queue| <= |p.workers| && p.started <= |p.workers|
    && WorkersInOrder(p) && StopInOrder(p)
    && Exits(p.workers) + Queued(p.queue, None) == NullsPushed(p)
    && NullsLast(p.queue) && (Exits(p.workers) > 0 ==> NoTasks(p.queue))
  }

  ghost predicate Inv(p: Pool) {
    Shape(p) && forall task {:trigger Conserved(p, task)} :: Conserved(p, task)
  }

  lemma StepConserves(p: Pool, l: Label, task: Task)
    requires StartedInOrder(p) && Enabled(p, l) && Conserved(p, task)
    ensures Conserved(Next(p, l), task)
  {
    var r := Next(p, l);
    match l
    case Add(x) => QueuedAfterPush(p.queue, Some(x), Some(task));
    case LateAdd(x) => QueuedAfterPush(p.queue, Some(x), Some(task));
    case PushNull => QueuedAfterPush(p.queue, None, Some(task));
    case Pop(w) => HoldingAfter(p.workers, w, r.workers[w], task);
    case StartOne => HoldingAfter(p.workers, p.started, Fetching, task);
    case Finish(w) => HoldingAfter(p.workers, w, Fetching, task);
    case CallStop =>
    case JoinNext =>
  }

  lemma PushKeepsShape(p: Pool, l: Label)
    requires Shape(p) && Enabled(p, l) && (l.Add? || l.PushNull?)
    ensures Shape(Next(p, l))
  {
    QueuedAfterPush(p.queue, if l.Add? then Some(l.task) else None, None);
    NotQueued(p.queue, None);
  }

  lemma WorkerKeepsShape(p: Pool, l: Label)
    requires Shape(p) && Enabled(p, l) && (l.StartOne? || l.Finish?)
    ensures Shape(Next(p, l))
  {
    WorkersAfter(p.workers, if l.StartOne? then p.started else l.w, Fetching);
  }

  lemma PopKeepsShape(p: Pool, l: Label)
    requires Shape(p) && Enabled(p, l) && l.Pop?
    ensures Shape(Next(p, l))
  {
    WorkersAfter(p.workers, l.w, Next(p, l).workers[l.w]);
    NotQueued(p.queue, None);
  }

  lemma StepKeepsInv(p: Pool, l: Label)
    requires Inv(p) && Enabled(p, l) && !l.LateAdd?
    ensures Inv(Next(p, l))
  {
    forall task ensures Conserved(Next(p, l), task) {
      assert Conserved(p, task);
      StepConserves(p, l, task);
    }
    if l.Add? || l.PushNull? {
      PushKeepsShape(p, l);
    } else if l.StartOne? || l.Finish? {
      WorkerKeepsShape(p, l);
    } else if l.Pop? {
      PopKeepsShape(p, l);
    }
  }

  lemma {:induction false} RunsKeepInv(p: Pool, ls: seq<Label>)
    requires Inv(p) && IsRun(p, ls) && Disciplined(ls)
    ensures Inv(After(p, ls))
    decreases |ls|
  {
    if ls != [] {
      StepKeepsInv(p, ls[0]);
      RunsKeepInv(Next(p, ls[0]), ls[1..]);
    }
  }

  lemma InitialInv(p: Pool)
    requires Initial(p)
    ensures Inv(p)
  {
    NoExits(p.workers);
    forall task ensures Conserved(p, task) {
      NobodyHolds(p.workers, task);
    }
  }

  lemma {:induction false} NoExits(ws: seq<Worker>)
    requires forall i :: 0 <= i < |ws| ==> !ws[i].Exited?
    ensures Exits(ws) == 0
  {
    if ws != [] {
      NoExits(ws[1..]);
    }
  }

  // ---------------------------------------------------------------------
  // What shutdown guarantees
  // ---------------------------------------------------------------------

  /**
    When Stop returns, every added task has run exactly as often as it was
    added, each worker has consumed exactly one null, and the queue is empty.
   */
  lemma ShutdownRunsEverythingOnce(p: Pool, ls: seq<Label>)
    requires Initial(p) && IsRun(p, ls) && Disciplined(ls) && After(p, ls).stop.Returned?
    ensures var r := After(p, ls);
            && multiset(r.ran) == multiset(r.added)
            && r.queue == []
            && |r.workers| == |r.nulls|
            && forall i :: 0 <= i < |r.nulls| ==> r.workers[i].Exited? && r.nulls[i] == 1
  {
    InitialInv(p);
    RunsKeepInv(p, ls);
    var r := After(p, ls);
    ExitsBounded(r.workers);
    NotQueued(r.queue, None);
    assert None !in r.queue && NoTasks(r.queue);
    forall task ensures multiset(r.ran)[task] == multiset(r.added)[task] {
      assert Conserved(r, task);
      NobodyHolds(r.workers, task);
    }
  }

  /** Once Stop is called and until it returns, some step is possible: shutdown cannot deadlock. */
  lemma ShutdownNeverStuck(p: Pool) returns (l: Label)
    requires Shape(p) && !p.stop.NotCalled? && !p.stop.Returned?
    ensures Enabled(p, l) && !l.LateAdd?
  {
    ExitsBounded(p.workers);
    NotQueued(p.queue, None);
    if p.stop.Pushing? && |p.queue| < |p.workers| {
      return PushNull;
    }
    if p.stop.Joining? && p.workers[p.stop.k].Exited? {
      return JoinNext;
    }
    var w :| 0 <= w < |p.workers| && !p.workers[w].Exited?;
    l := if p.workers[w].Running? then Finish(w) else Pop(w);
  }

  /** Work left before Stop returns. */
  function Remaining(p: Pool): int {
    3 * (|p.workers| - NullsPushed(p)) + 2 * |p.queue| + Busy(p.workers)
    + (match p.stop
       case Joining(k) => |p.workers| - k
       case Returned => 0
       case _ => |p.workers|)
  }

  /** Every step after Stop is called uses up some of it. */
  lemma StepUsesUpWork(p: Pool, l: Label)
    requires Shape(p) && Enabled(p, l) && !l.LateAdd? && !p.stop.NotCalled?
    ensures 0 <= Remaining(Next(p, l)) < Remaining(p) && !Next(p, l).stop.NotCalled?
  {
    match l
    case Pop(w) => WorkersAfter(p.workers, w, Next(p, l).workers[w]);
    case Finish(w) => WorkersAfter(p.workers, w, Fetching);
    case PushNull =>
    case JoinNext =>
  }

  /** So no run after the call is longer than the work left: with the lemma above, Stop returns. */
  lemma {:induction false} ShutdownTerminates(p: Pool, ls: seq<Label>)
    requires Inv(p) && !p.stop.NotCalled? && IsRun(p, ls) && Disciplined(ls)
    ensures |ls| <= Remaining(p)
    decreases |ls|
  {
    if ls != [] {
      StepUsesUpWork(p, ls[0]);
      StepKeepsInv(p, ls[0]);
      ShutdownTerminates(Next(p, ls[0]), ls[1..]);
    }
  }

  /** A run with Stop called that no step can extend has seen Stop return. */
  lemma MaximalRunsReturn(p: Pool, ls: seq<Label>)
    requires Initial(p) && IsRun(p, ls) && Disciplined(ls) && !After(p, ls).stop.NotCalled?
    requires forall l :: Enabled(After(p, ls), l) ==> l.LateAdd?
    ensures After(p, ls).stop.Returned?
  {
    InitialInv(p);
    RunsKeepInv(p, ls);
    if !After(p, ls).stop.Returned? {
      var l := ShutdownNeverStuck(After(p, ls));
      assert false;
    }
  }

  /** The discipline matters: a task added while Stop runs can be left in the queue for ever. */
  lemma LateTaskCanBeLost(task: Task) returns (p: Pool, ls: seq<Label>)
    ensures Initial(p) && IsRun(p, ls)
    ensures var r := After(p, ls);
            r.stop.Returned? && r.queue == [Some(task)] && task in r.added && task !in r.ran
  {
    p := Pool([], [NotStarted], 0, NotCalled, [], [], [0]);
    var p1 := Pool([], [Fetching], 1, NotCalled, [], [], [0]);
    var p2 := p1.(stop := Pushing(0));
    var p3 := p1.(stop := Joining(0), queue := [None]);
    var p4 := p3.(workers := [Exited], queue := [], nulls := [1]);
    var p5 := p4.(queue := [Some(task)], added := [task]);
    RunCons(p5, JoinNext, [], p5.(stop := Returned));
    RunCons(p4, LateAdd(task), [JoinNext] + [], p5);
    ls := [LateAdd(task)] + ([JoinNext] + []);
    RunCons(p3, Pop(0), ls, p4);
    ls := [Pop(0)] + ls;
    RunCons(p2, PushNull, ls, p3);
    ls := [PushNull] + ls;
    RunCons(p1, CallStop, ls, p2);
    ls := [CallStop] + ls;
    RunCons(p, StartOne, ls, p1);
    ls := [StartOne] + ls;
  }

  /** Stop has joined the workers it claims to have joined. */
  predicate Joined(p: Pool) {
    && p.workers != []
    && match p.stop
       case Joining(k) => k < |p.workers| && AllExited(p.workers, k)
       case Returned => AllExited(p.workers, |p.workers|)
       case _ => true
  }

  lemma StepKeepsOrder(p: Pool, l: Label)
    requires Enabled(p, l) && Joined(p) && StartedInOrder(p)
    ensures Joined(Next(p, l)) && StartedInOrder(Next(p, l))
  {
  }

  lemma {:induction false} AnyRunConserves(p: Pool, ls: seq<Label>, task: Task)
    requires IsRun(p, ls) && Joined(p) && StartedInOrder(p) && Conserved(p, task)
    ensures Joined(After(p, ls)) && Conserved(After(p, ls), task)
    decreases |ls|
  {
    if ls != [] {
      StepConserves(p, ls[0], task);
      StepKeepsOrder(p, ls[0]);
      AnyRunConserves(Next(p, ls[0]), ls[1..], task);
    }
  }

  /**
    Late additions or not, what Stop leaves undone is exactly what is in the
    queue when it returns: everything has run if and only if no task is there.
   */
  lemma OnlyQueuedTasksAreLost(p: Pool, ls: seq<Label>)
    requires Initial(p) && IsRun(p, ls) && After(p, ls).stop.Returned?
    ensures var r := After(p, ls);
            && (forall task :: multiset(r.added)[task] == multiset(r.ran)[task] + Queued(r.queue, Some(task)))
            && (multiset(r.ran) == multiset(r.added) <==> NoTasks(r.queue))
  {
    var r := After(p, ls);
    InitialInv(p);
    forall task ensures multiset(r.added)[task] == multiset(r.ran)[task] + Queued(r.queue, Some(task)) {
      assert Conserved(p, task);
      AnyRunConserves(p, ls, task);
      NobodyHolds(r.workers, task);
    }
    forall task: Task ensures Queued(r.queue, Some(task)) == 0 <==> Some(task) !in r.queue {
      NotQueued(r.queue, Some(task));
    }
    if multiset(r.ran) == multiset(r.added) {
      forall i | 0 <= i < |r.queue| ensures r.queue[i].None? {
        var x := r.queue[i];
        NotQueued(r.queue, x);
        assert x in r.queue;
        assert x.Some? ==> multiset(r.ran)[x.value] < multiset(r.added)[x.value];
      }
    }
  }

  // ---------------------------------------------------------------------
  // Exactly which tasks are lost
  // ---------------------------------------------------------------------

  /** The tasks added after the last null was pushed. */
  function TooLate(p: Pool, ls: seq<Label>): seq<Task>
    requires IsRun(p, ls)
    decreases |ls|
  {
    if ls == [] then []
    else TooLateBy(p, ls[0]) + TooLate(Next(p, ls[0]), ls[1..])
  }

  /** The task this step adds too late, if it does. */
  function TooLateBy(p: Pool, l: Label): seq<Task> { if l.LateAdd? && !p.stop.Pushing? then [l.late] else [] }

  function Somes(ts: seq<Task>): (q: seq<Option<Task>>)
    ensures |q| == |ts| && forall i :: 0 <= i < |ts| ==> q[i] == Some(ts[i])
  {
    seq(|ts|, i requires 0 <= i < |ts| => Some(ts[i]))
  }

  predicate AllPushed(p: Pool) { p.stop.Joining? || p.stop.Returned? }

  /** Once all nulls are pushed, the queue is empty or ends in a null, apart from the tasks that came too late. */
  predicate Behind(p: Pool, late: seq<Task>) { if AllPushed(p) then EndsWith(p.queue, late) else late == [] }

  predicate EndsWith(q: seq<Option<Task>>, late: seq<Task>) {
    && |late| <= |q| && q[|q| - |late|..] == Somes(late)
    && (|late| < |q| ==> q[|q| - |late| - 1].None?)
  }

  lemma EndsWithMore(q: seq<Option<Task>>, late: seq<Task>, t: Task)
    requires EndsWith(q, late)
    ensures EndsWith(q + [Some(t)], late + [t])
  {
    var n := |q| - |late|;
    assert (q + [Some(t)])[n..] == q[n..] + [Some(t)];
    assert Somes(late + [t]) == Somes(late) + [Some(t)];
  }

  lemma EndsWithTail(q: seq<Option<Task>>, late: seq<Task>)
    requires EndsWith(q, late) && |late| < |q|
    ensures EndsWith(q[1..], late)
  {
    var n := |q| - |late|;
    assert q[1..][n - 1..] == q[n..];
  }

  /** Every null pushed is queued or has ended a worker. */
  predicate NullsCounted(p: Pool) {
    && (p.stop.NotCalled? ==> None !in p.queue)
    && (p.stop.Pushing? ==> p.stop.k < |p.workers|)
    && Exits(p.workers) + Queued(p.queue, None) == NullsPushed(p)
  }

  lemma StepCountsNulls(p: Pool, l: Label)
    requires Enabled(p, l) && Joined(p) && StartedInOrder(p) && NullsCounted(p)
    ensures NullsCounted(Next(p, l))
  {
    var r := Next(p, l);
    match l
    case Add(x) => QueuedAfterPush(p.queue, Some(x), None);
    case LateAdd(x) => QueuedAfterPush(p.queue, Some(x), None);
    case PushNull => QueuedAfterPush(p.queue, None, None);
    case Pop(w) =>
      WorkersAfter(p.workers, w, r.workers[w]);
      NotQueued(p.queue, None);
    case StartOne => WorkersAfter(p.workers, p.started, Fetching);
    case Finish(w) => WorkersAfter(p.workers, w, Fetching);
    case CallStop => NotQueued(p.queue, None);
    case JoinNext =>
  }

  /** A worker that still fetches finds a null, so it never gets to the tasks that came too late. */
  lemma PopLeavesLate(p: Pool, l: Label, late: seq<Task>)
    requires Enabled(p, l) && l.Pop? && AllPushed(p) && NullsCounted(p) && Behind(p, late)
    ensures Behind(Next(p, l), late)
  {
    ExitsBounded(p.workers);
    NotQueued(p.queue, None);
    assert None in p.queue;
    EndsWithTail(p.queue, late);
  }

  lemma StepKeepsBehind(p: Pool, l: Label, late: seq<Task>)
    requires Enabled(p, l) && Joined(p) && NullsCounted(p) && Behind(p, late)
    ensures Behind(Next(p, l), late + TooLateBy(p, l))
  {
    assert late + [] == late;
    if AllPushed(p) && l.LateAdd? {
      EndsWithMore(p.queue, late, l.late);
    } else if AllPushed(p) && l.Pop? {
      PopLeavesLate(p, l, late);
    }
  }

  predicate Closing(p: Pool, late: seq<Task>) {
    Joined(p) && StartedInOrder(p) && NullsCounted(p) && Behind(p, late)
  }

  lemma StepKeepsClosing(p: Pool, l: Label, late: seq<Task>)
    requires Enabled(p, l) && Closing(p, late)
    ensures Closing(Next(p, l), late + TooLateBy(p, l))
  {
    StepKeepsOrder(p, l);
    StepCountsNulls(p, l);
    StepKeepsBehind(p, l, late);
  }

  lemma {:induction false} QueueEndsWithTooLate(p: Pool, ls: seq<Label>, late: seq<Task>)
    requires IsRun(p, ls) && Closing(p, late)
    ensures Closing(After(p, ls), late + TooLate(p, ls))
    decreases |ls|
  {
    if ls == [] {
      assert late + [] == late;
    } else {
      var next, now, rest := Next(p, ls[0]), TooLateBy(p, ls[0]), TooLate(Next(p, ls[0]), ls[1..]);
      StepKeepsClosing(p, ls[0], late);
      QueueEndsWithTooLate(next, ls[1..], late + now);
      Regroup(late, now, rest);
    }
  }

  lemma Regroup(a: seq<Task>, b: seq<Task>, c: seq<Task>)
    ensures a + b + c == a + (b + c)
  {
  }

  lemma ReturnedQueue(p: Pool, late: seq<Task>)
    requires Closing(p, late) && p.stop.Returned?
    ensures p.queue == Somes(late)
  {
    ExitsBounded(p.workers);
    NotQueued(p.queue, None);
    assert p.queue == p.queue[0..];
  }

  /**
    A task is lost if and only if it is added after the last null was pushed:
    when Stop returns the queue holds exactly those tasks, in order, and
    everything has run exactly when there are none.
   */
  lemma LostExactlyIfTooLate(p: Pool, ls: seq<Label>)
    requires Initial(p) && IsRun(p, ls) && After(p, ls).stop.Returned?
    ensures var r := After(p, ls);
            && r.queue == Somes(TooLate(p, ls))
            && multiset(r.added) == multiset(r.ran) + multiset(TooLate(p, ls))
            && (multiset(r.ran) == multiset(r.added) <==> TooLate(p, ls) == [])
  {
    var r, late := After(p, ls), TooLate(p, ls);
    InitialCloses(p);
    QueueEndsWithTooLate(p, ls, []);
    assert [] + late == late;
    ReturnedQueue(r, late);
    OnlyQueuedTasksAreLost(p, ls);
    LateAreMissing(r, late);
  }

  lemma InitialCloses(p: Pool)
    requires Initial(p)
    ensures Closing(p, [])
  {
    NoExits(p.workers);
  }

  lemma {:induction false} NoneTooLate(p: Pool, ls: seq<Label>)
    requires IsRun(p, ls) && Disciplined(ls)
    ensures TooLate(p, ls) == []
    decreases |ls|
  {
    if ls != [] {
      NoneTooLate(Next(p, ls[0]), ls[1..]);
    }
  }

  lemma LateAreMissing(r: Pool, late: seq<Task>)
    requires r.queue == Somes(late)
    requires forall task :: multiset(r.added)[task] == multiset(r.ran)[task] + Queued(r.queue, Some(task))
    ensures multiset(r.added) == multiset(r.ran) + multiset(late)
    ensures NoTasks(r.queue) <==> late == []
  {
    forall task ensures multiset(r.added)[task] == (multiset(r.ran) + multiset(late))[task] {
      QueuedSomes(late, task);
    }
    assert late != [] ==> r.queue[0].Some?;
  }

  lemma {:induction false} QueuedSomes(ts: seq<Task>, task: Task)
    ensures Queued(Somes(ts), Some(task)) == multiset(ts)[task]
  {
    if ts != [] {
      QueuedSomes(ts[1..], task);
      assert Somes(ts)[1..] == Somes(ts[1..]) && ts == [ts[0]] + ts[1..];
    }
  }

  lemma RunCons(p: Pool, l: Label, ls: seq<Label>, q: Pool)
    requires Enabled(p, l) && Next(p, l) == q && IsRun(q, ls)
    ensures IsRun(p, [l] + ls) && After(p, [l] + ls) == After(q, ls)
  {
    assert ([l] + ls)[1..] == ls;
  }
}
