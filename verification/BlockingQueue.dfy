/**
  The bounded blocking queue as a step system: one mutex, the conditions
  notEmpty and notFull, and any number of threads each running Push or Pop.
  A step is one action between scheduling points, so runs cover every
  interleaving, spurious wakeups, and threads that overtake a signalled waiter
  on the way to the mutex.
 */
module BlockingQueue {
  import opened Options

  type Tid = nat

  datatype Op<T> = PushOp(x: T) | PopOp

  datatype Thread<T> =
    | Idle
    | Entering(op: Op<T>)                    // asks for the mutex for the first time
    | Checking(op: Op<T>, signalled: bool)   // holds the mutex, at the test of its wait loop
    | Waiting(op: Op<T>)                     // blocked in its condition, mutex released
    | Woken(op: Op<T>, signalled: bool)      // out of the condition, asks for the mutex again
    | Notifying(op: Op<T>, res: Option<T>)   // has changed the queue, is about to notify
    | Leaving(op: Op<T>, res: Option<T>)     // has notified, is about to unlock and return

  /** `pushed` and `popped` record every item ever put in and taken out. */
  datatype State<T> = State(capacity: nat, queue: seq<T>, holder: Option<Tid>, threads: map<Tid, Thread<T>>,
                            pushed: seq<T>, popped: seq<T>)

  datatype Label<T> =
    | Begin(t: Tid, op: Op<T>)
    | Acquire(t: Tid)
    | Wait(t: Tid)
    | Act(t: Tid)
    | Notify(t: Tid, w: Option<Tid>)
    | Spurious(t: Tid)
    | Leave(t: Tid)

  predicate HasMutex<T>(th: Thread<T>) { th.Checking? || th.Notifying? || th.Leaving? }

  /** Push waits while the queue is full, Pop while it is empty. */
  predicate Blocked<T>(s: State<T>, op: Op<T>) {
    match op
    case PushOp(_) => |s.queue| == s.capacity
    case PopOp => s.queue == []
  }

  /** Push notifies notEmpty, on which Pop waits, and the other way round. */
  predicate WaitsFor<T>(th: Thread<T>, done: Op<T>) {
    th.Waiting? && (th.op.PushOp? <==> done.PopOp?)
  }

  /** A notification goes to some waiter if there is one. */
  predicate Notifies<T>(s: State<T>, done: Op<T>, w: Option<Tid>) {
    match w
    case Some(u) => u in s.threads && WaitsFor(s.threads[u], done)
    case None => forall u :: u in s.threads ==> !WaitsFor(s.threads[u], done)
  }

  predicate Enabled<T>(s: State<T>, l: Label<T>) {
    && l.t in s.threads
    && var th := s.threads[l.t];
       match l
       case Begin(_, _) => th.Idle?
       case Acquire(_) => s.holder.None? && (th.Entering? || th.Woken?)
       case Wait(_) => th.Checking? && Blocked(s, th.op)
       case Act(_) => th.Checking? && !Blocked(s, th.op)
       case Notify(_, w) => th.Notifying? && Notifies(s, th.op, w)
       case Spurious(_) => th.Waiting?
       case Leave(_) => th.Leaving?
  }

  function Next<T>(s: State<T>, l: Label<T>): State<T>
    requires Enabled(s, l)
  {
    var th := s.threads[l.t];
    match l
    case Begin(t, op) => s.(threads := s.threads[t := Entering(op)])
    case Acquire(t) =>
      s.(holder := Some(t), threads := s.threads[t := Checking(th.op, th.Woken? && th.signalled)])
    case Wait(t) => s.(holder := None, threads := s.threads[t := Waiting(th.op)])
    case Act(t) =>
      (match th.op
       case PushOp(x) => s.(queue := s.queue + [x], pushed := s.pushed + [x],
                            threads := s.threads[t := Notifying(th.op, None)])
       case PopOp => s.(queue := s.queue[1..], popped := s.popped + [s.queue[0]],
                        threads := s.threads[t := Notifying(th.op, Some(s.queue[0]))]))
    case Notify(t, w) =>
      var woken := if w.Some? then s.threads[w.value := Woken(s.threads[w.value].op, true)] else s.threads;
      s.(threads := woken[t := Leaving(th.op, th.res)])
    case Spurious(t) => s.(threads := s.threads[t := Woken(th.op, false)])
    case Leave(t) => s.(holder := None, threads := s.threads[t := Idle])
  }

  predicate Initial<T>(s: State<T>) {
    && s.capacity > 0 && s.queue == [] && s.holder.None? && s.pushed == [] && s.popped == []
    && forall t :: t in s.threads ==> s.threads[t].Idle?
  }

  /** `ls` can be taken one after the other from `s`. */
  predicate IsRun<T>(s: State<T>, ls: seq<Label<T>>)
    decreases |ls|
  {
    ls == [] || (Enabled(s, ls[0]) && IsRun(Next(s, ls[0]), ls[1..]))
  }

  function After<T>(s: State<T>, ls: seq<Label<T>>): State<T>
    requires IsRun(s, ls)
    decreases |ls|
  {
    if ls == [] then s else After(Next(s, ls[0]), ls[1..])
  }

  // ---------------------------------------------------------------------
  // The invariant
  // ---------------------------------------------------------------------

  /**
    Threads that stand for one pending chance to run `op`'s kind: signalled
    threads of that kind not yet past their test, and the thread that has
    changed the queue in that kind's favour but not yet notified.
   */
  predicate Credit<T>(th: Thread<T>, push: bool) {
    || ((th.Woken? || th.Checking?) && th.signalled && th.op.PushOp? == push)
    || (th.Notifying? && th.op.PushOp? != push)
  }

  ghost function Credits<T>(threads: map<Tid, Thread<T>>, push: bool): set<Tid> {
    set t | t in threads && Credit(threads[t], push)
  }

  /** Some thread of that kind is blocked in its condition, unsignalled. */
  ghost predicate SomeWaiter<T>(threads: map<Tid, Thread<T>>, push: bool) {
    exists t :: t in threads && threads[t].Waiting? && threads[t].op.PushOp? == push
  }

  /** How many operations of that kind could proceed right now. */
  function Room<T>(s: State<T>, push: bool): int {
    if push then s.capacity - |s.queue| else |s.queue|
  }

  /** No lost wakeup: while a thread waits, every chance for its kind is already spoken for. */
  ghost predicate NoLostWakeup<T>(s: State<T>, push: bool) {
    SomeWaiter(s.threads, push) ==> Room(s, push) <= |Credits(s.threads, push)|
  }

  /** Exactly the recorded holder is inside the critical section. */
  ghost predicate Exclusive<T>(s: State<T>) {
    && (s.holder.Some? ==> s.holder.value in s.threads)
    && forall t :: t in s.threads ==> (HasMutex(s.threads[t]) <==> s.holder == Some(t))
  }

  ghost predicate Inv<T>(s: State<T>) {
    && 0 < s.capacity && |s.queue| <= s.capacity
    && Exclusive(s)
    && s.pushed == s.popped + s.queue
    && NoLostWakeup(s, true) && NoLostWakeup(s, false)
  }

  /** Changing one thread changes the credits by that thread's own. */
  lemma CreditsAfter<T>(threads: map<Tid, Thread<T>>, t: Tid, th: Thread<T>, push: bool)
    requires t in threads
    ensures |Credits(threads[t := th], push)| + (if Credit(threads[t], push) then 1 else 0)
         == |Credits(threads, push)| + (if Credit(th, push) then 1 else 0)
  {
    var before, after := Credits(threads, push), Credits(threads[t := th], push);
    assert before - {t} == after - {t};
    assert |before - {t}| == |before| - (if t in before then 1 else 0);
    assert |after - {t}| == |after| - (if t in after then 1 else 0);
  }

  /**
    The accounting of every step that moves a single thread: it may add no more
    room for a kind than it adds credits, and a thread may start to wait (or a
    credit may be dropped) only when there is no room.
   */
  lemma KeepsWakeups<T>(s: State<T>, s': State<T>, t: Tid, th: Thread<T>, push: bool)
    requires t in s.threads && s'.threads == s.threads[t := th] && NoLostWakeup(s, push)
    requires || Room(s', push) <= 0
             || (&& !(th.Waiting? && th.op.PushOp? == push)
                 && Room(s', push) + (if Credit(s.threads[t], push) then 1 else 0)
                    <= Room(s, push) + (if Credit(th, push) then 1 else 0))
    ensures NoLostWakeup(s', push)
  {
    CreditsAfter(s.threads, t, th, push);
    if SomeWaiter(s'.threads, push) && Room(s', push) > 0 {
      var u :| u in s'.threads && s'.threads[u].Waiting? && s'.threads[u].op.PushOp? == push;
      assert u in s.threads && s.threads[u].Waiting?;
    }
  }

  /** Notifying hands the notifier's credit to the thread it wakes, or finds nobody waiting. */
  lemma NotifyKeepsWakeups<T>(s: State<T>, l: Label<T>, push: bool)
    requires l.Notify? && Enabled(s, l) && Inv(s)
    ensures NoLostWakeup(Next(s, l), push)
  {
    var th := s.threads[l.t];
    var left := Leaving(th.op, th.res);
    match l.w
    case None =>
      if th.op.PushOp? == push {
        KeepsWakeups(s, Next(s, l), l.t, left, push);
      } else {
        assert forall u :: u in s.threads ==> !WaitsFor(s.threads[u], th.op);
      }
    case Some(w) =>
      var mid := s.(threads := s.threads[w := Woken(s.threads[w].op, true)]);
      CreditsAfter(s.threads, w, mid.threads[w], push);
      CreditsAfter(mid.threads, l.t, left, push);
      if SomeWaiter(Next(s, l).threads, push) {
        var u :| u in s.threads && Next(s, l).threads[u].Waiting? && Next(s, l).threads[u].op.PushOp? == push;
        assert s.threads[u].Waiting?;
      }
  }

  lemma StepKeepsWakeups<T>(s: State<T>, l: Label<T>, push: bool)
    requires Inv(s) && Enabled(s, l)
    ensures NoLostWakeup(Next(s, l), push)
  {
    if l.Notify? {
      NotifyKeepsWakeups(s, l, push);
    } else {
      KeepsWakeups(s, Next(s, l), l.t, Next(s, l).threads[l.t], push);
    }
  }

  lemma StepKeepsExclusion<T>(s: State<T>, l: Label<T>)
    requires Inv(s) && Enabled(s, l)
    ensures Exclusive(Next(s, l))
  {
  }

  lemma StepKeepsInv<T>(s: State<T>, l: Label<T>)
    requires Inv(s) && Enabled(s, l)
    ensures Inv(Next(s, l))
  {
    StepKeepsExclusion(s, l);
    StepKeepsWakeups(s, l, true);
    StepKeepsWakeups(s, l, false);
    assert Next(s, l).pushed == Next(s, l).popped + Next(s, l).queue;
  }

  /** Every state of every run satisfies the invariant. */
  lemma {:induction false} RunsKeepInv<T>(s: State<T>, ls: seq<Label<T>>)
    requires Inv(s) && IsRun(s, ls)
    ensures Inv(After(s, ls))
    decreases |ls|
  {
    if ls != [] {
      StepKeepsInv(s, ls[0]);
      RunsKeepInv(Next(s, ls[0]), ls[1..]);
    }
  }

  // ---------------------------------------------------------------------
  // What it is for
  // ---------------------------------------------------------------------

  /** A step that needs neither a new call nor a spurious wakeup. */
  predicate Progress<T>(s: State<T>, l: Label<T>) { Enabled(s, l) && !l.Begin? && !l.Spurious? }

  ghost predicate Quiet<T>(s: State<T>) {
    forall t :: t in s.threads ==> s.threads[t].Idle? || s.threads[t].Waiting?
  }

  /** Any thread neither idle nor waiting means somebody can move. */
  lemma BusyCanProgress<T>(s: State<T>) returns (l: Label<T>)
    requires Inv(s) && !Quiet(s)
    ensures Progress(s, l)
  {
    var t :| t in s.threads && !s.threads[t].Idle? && !s.threads[t].Waiting?;
    if s.holder.Some? {
      var h := s.holder.value;
      var th := s.threads[h];
      match th
      case Checking(op, _) => l := if Blocked(s, op) then Wait(h) else Act(h);
      case Notifying(op, _) =>
        if w :| w in s.threads && WaitsFor(s.threads[w], op) {
          l := Notify(h, Some(w));
        } else {
          l := Notify(h, None);
        }
      case Leaving(_, _) => l := Leave(h);
    } else {
      l := Acquire(t);
    }
  }

  /**
    No waiter is stranded. In every reachable state, either some thread can
    move, or all threads are idle or waiting; and then consumers wait only on
    an empty queue, producers only on a full one, and never both kinds at once.
   */
  lemma NobodyStranded<T(!new)>(s: State<T>, ls: seq<Label<T>>)
    requires Initial(s) && IsRun(s, ls)
    ensures var r := After(s, ls);
            && ((exists l :: Progress(r, l)) <==> !Quiet(r))
            && (Quiet(r) ==>
                  && (SomeWaiter(r.threads, false) ==> r.queue == [])
                  && (SomeWaiter(r.threads, true) ==> |r.queue| == r.capacity)
                  && !(SomeWaiter(r.threads, false) && SomeWaiter(r.threads, true)))
  {
    InitialInv(s);
    RunsKeepInv(s, ls);
    var r := After(s, ls);
    if Quiet(r) {
      QuietWaiters(r);
    } else {
      var l := BusyCanProgress(r);
    }
  }

  /** When nobody is about to do anything, every waiter has reason to wait. */
  lemma QuietWaiters<T>(s: State<T>)
    requires Inv(s) && Quiet(s)
    ensures SomeWaiter(s.threads, false) ==> s.queue == []
    ensures SomeWaiter(s.threads, true) ==> |s.queue| == s.capacity
  {
    assert Credits(s.threads, true) == {} && Credits(s.threads, false) == {};
  }

  lemma InitialInv<T>(s: State<T>)
    requires Initial(s)
    ensures Inv(s)
  {
  }

  /** The atomic bounded queue: one push or one pop, or nothing. */
  predicate AtomicStep<T(==)>(capacity: nat, q: seq<T>, pushed: seq<T>, popped: seq<T>,
                              q': seq<T>, pushed': seq<T>, popped': seq<T>) {
    || (q' == q && pushed' == pushed && popped' == popped)
    || (|q| < capacity && |pushed'| > 0 && q' == q + [pushed'[|pushed'| - 1]]
        && pushed' == pushed + [pushed'[|pushed'| - 1]] && popped' == popped)
    || (q != [] && q' == q[1..] && popped' == popped + [q[0]] && pushed' == pushed)
  }

  /** Every step of the blocking queue is a step of the atomic one, and Pop returns what it took. */
  lemma RefinesAtomicQueue<T>(s: State<T>, l: Label<T>)
    requires Inv(s) && Enabled(s, l)
    ensures var r := Next(s, l);
            && AtomicStep(s.capacity, s.queue, s.pushed, s.popped, r.queue, r.pushed, r.popped)
            && r.capacity == s.capacity
            && (l.Act? && s.threads[l.t].op.PopOp? ==>
                  r.threads[l.t].res == Some(s.queue[0]) && r.popped == s.popped + [s.queue[0]])
  {
  }

  /** First in, first out: what was taken out is a prefix of what was put in, the rest is queued. */
  lemma FirstInFirstOut<T>(s: State<T>, ls: seq<Label<T>>)
    requires Initial(s) && IsRun(s, ls)
    ensures var r := After(s, ls);
            r.pushed == r.popped + r.queue && |r.queue| <= r.capacity
  {
    InitialInv(s);
    RunsKeepInv(s, ls);
  }
}
