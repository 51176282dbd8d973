/** The hand-off of accepted sessions from the dispatcher thread of a worker process to its pool threads:
    a mutex-guarded shared queue, a semaphore that counts it, and the dispatcher's private overflow queue.
    Every step is one atomic access of one thread; a run is any interleaving of steps. */
module WorkerHandoff {
  import opened Octets

  type Session = nat

  /** Where the dispatcher stands.  The sessions named are those it holds in a local variable. */
  datatype DispatcherPc =
    | Receiving
    | Received(s: Session)      // before `pthread_mutex_trylock`
    | Flushing(s: Session)      // head of the overflow loop, mutex held
    | FlushPosting(s: Session)  // pushed one, before its `sem_post`
    | Unlocking                 // pushed the new session, before the unlock
    | Posting                   // unlocked, before its `sem_post`
    | IdleFlushing              // overflow loop of the receive timeout, mutex held
    | IdlePosting
    | Stopped

  datatype WorkerPc =
    | Waiting                   // in `sem_timedwait`
    | Woken                     // past the semaphore, before the lock
    | Locked                    // mutex held, before the pop
    | Popped(got: seq<Session>) // mutex held, after the pop (`[]` when the queue was empty)
    | Handling(s: Session)
    | Exited

  datatype Holder = Nobody | Dispatcher | Pool(i: nat)

  datatype State = State(
    received: seq<Session>,     // every session taken from the socket so far, in order
    overflow: seq<Session>,
    queue: seq<Session>,
    handed: seq<Session>,       // every session popped by a worker so far, in order
    sem: nat,
    mutex: Holder,
    disp: DispatcherPc,
    workers: seq<WorkerPc>)

  datatype Step =
    | Accept(s: Session)
    | Quit
    | TryLock                   // with a new session in hand
    | Timeout                   // no session within a second
    | Flush
    | Post
    | Unlock
    | Wait(i: nat)
    | GiveUp(i: nat)            // the semaphore timed out and the thread ends
    | Lock(i: nat)
    | Pop(i: nat)
    | Release(i: nat)
    | Done(i: nat)
    | Spawn

  predicate WorkerAt(st: State, i: nat, pc: WorkerPc) {
    i < |st.workers| && st.workers[i] == pc
  }

  predicate Enabled(st: State, step: Step) {
    match step
    case Accept(_) => st.disp.Receiving?
    case Quit => st.disp.Receiving?
    case Timeout => st.disp.Receiving?
    case TryLock => st.disp.Received?
    case Flush => st.disp.Flushing? || st.disp.IdleFlushing?
    case Post => st.disp.FlushPosting? || st.disp.IdlePosting? || st.disp.Posting?
    case Unlock => st.disp.Unlocking?
    case Wait(i) => WorkerAt(st, i, Waiting) && st.sem > 0
    case GiveUp(i) => WorkerAt(st, i, Waiting)
    case Lock(i) => WorkerAt(st, i, Woken) && st.mutex == Nobody
    case Pop(i) => WorkerAt(st, i, Locked)
    case Release(i) => i < |st.workers| && st.workers[i].Popped?
    case Done(i) => i < |st.workers| && st.workers[i].Handling?
    case Spawn => true
  }

  function Move(st: State, i: nat, pc: WorkerPc): State
    requires i < |st.workers|
  {
    st.(workers := st.workers[i := pc])
  }

  function Do(st: State, step: Step): State
    requires Enabled(st, step)
  {
    match step
    case Accept(s) => st.(disp := Received(s), received := st.received + [s])
    case Quit => st.(disp := Stopped)
    case Timeout =>
      if st.overflow != [] && st.mutex == Nobody then st.(disp := IdleFlushing, mutex := Dispatcher) else st
    case TryLock =>
      if st.mutex == Nobody then st.(disp := Flushing(st.disp.s), mutex := Dispatcher)
      else st.(disp := Receiving, overflow := st.overflow + [st.disp.s])
    case Flush => DoFlush(st)
    case Post =>
      st.(sem := st.sem + 1,
          disp := match st.disp
                  case FlushPosting(s) => Flushing(s)
                  case IdlePosting => IdleFlushing
                  case _ => Receiving)
    case Unlock => st.(mutex := Nobody, disp := Posting)
    case Wait(i) => Move(st, i, Woken).(sem := st.sem - 1)
    case GiveUp(i) => Move(st, i, Exited)
    case Lock(i) => Move(st, i, Locked).(mutex := Pool(i))
    case Pop(i) =>
      if st.queue == [] then Move(st, i, Popped([]))
      else Move(st, i, Popped([st.queue[0]])).(queue := st.queue[1..], handed := st.handed + [st.queue[0]])
    case Release(i) =>
      var got := st.workers[i].got;
      Move(st, i, if got == [] then Waiting else Handling(got[0])).(mutex := Nobody)
    case Done(i) => Move(st, i, Waiting)
    case Spawn => st.(workers := st.workers + [Waiting])
  }

  /** One pass of an overflow loop.  The loop of the receive timeout ends without unlocking. */
  function DoFlush(st: State): State
    requires st.disp.Flushing? || st.disp.IdleFlushing?
  {
    if st.overflow != [] then
      st.(overflow := st.overflow[1..], queue := st.queue + [st.overflow[0]],
          disp := if st.disp.Flushing? then FlushPosting(st.disp.s) else IdlePosting)
    else if st.disp.Flushing? then st.(queue := st.queue + [st.disp.s], disp := Unlocking)
    else st.(disp := Receiving)
  }

  const INIT := State([], [], [], [], 0, Nobody, Receiving, [])

  /** The state after a run, if every step of it was possible. */
  ghost predicate Reaches(st: State, steps: seq<Step>, end: State)
    decreases |steps|
  {
    if steps == [] then end == st
    else Enabled(st, steps[0]) && Reaches(Do(st, steps[0]), steps[1..], end)
  }

  // ---- The invariant ----

  predicate BetweenWaitAndPop(pc: WorkerPc) {
    pc.Woken? || pc.Locked?
  }

  function Owed(workers: seq<WorkerPc>): nat {
    if workers == [] then 0
    else (if BetweenWaitAndPop(workers[|workers| - 1]) then 1 else 0) + Owed(workers[..|workers| - 1])
  }

  /** Pushed but not yet posted. */
  function Unposted(d: DispatcherPc): nat {
    if d.FlushPosting? || d.IdlePosting? || d.Unlocking? || d.Posting? then 1 else 0
  }

  /** The session in the dispatcher's hand, not yet in any queue. */
  function InHand(d: DispatcherPc): seq<Session> {
    if d.Received? || d.Flushing? || d.FlushPosting? then [d.s] else []
  }

  predicate DispatcherHolds(d: DispatcherPc) {
    d.Flushing? || d.FlushPosting? || d.Unlocking? || d.IdleFlushing? || d.IdlePosting?
  }

  predicate WorkerHolds(pc: WorkerPc) {
    pc.Locked? || pc.Popped?
  }

  ghost predicate Exclusive(st: State) {
    && (DispatcherHolds(st.disp) ==> st.mutex == Dispatcher)
    && (forall i | 0 <= i < |st.workers| :: WorkerHolds(st.workers[i]) ==> st.mutex == Pool(i))
  }

  ghost predicate Counted(st: State) {
    |st.queue| == st.sem + Owed(st.workers) + Unposted(st.disp)
  }

  ghost predicate Ordered(st: State) {
    st.received == st.handed + st.queue + st.overflow + InHand(st.disp)
  }

  ghost predicate NonEmptyPops(st: State) {
    forall i | 0 <= i < |st.workers| && st.workers[i].Popped? :: |st.workers[i].got| == 1
  }

  ghost predicate Inv(st: State) {
    Exclusive(st) && Counted(st) && Ordered(st) && NonEmptyPops(st)
  }

  lemma {:induction false} OwedUpdate(workers: seq<WorkerPc>, i: nat, pc: WorkerPc)
    requires i < |workers|
    ensures Owed(workers[i := pc]) + (if BetweenWaitAndPop(workers[i]) then 1 else 0)
         == Owed(workers) + (if BetweenWaitAndPop(pc) then 1 else 0)
  {
    var n := |workers| - 1;
    if i < n {
      assert workers[i := pc][..n] == workers[..n][i := pc];
      OwedUpdate(workers[..n], i, pc);
    } else {
      assert workers[i := pc][..n] == workers[..n];
    }
  }

  lemma {:induction false} OwedPositive(workers: seq<WorkerPc>, i: nat)
    requires i < |workers| && BetweenWaitAndPop(workers[i])
    ensures Owed(workers) > 0
  {
    if i < |workers| - 1 {
      OwedPositive(workers[..|workers| - 1], i);
    }
  }

  predicate OfWorker(step: Step) {
    step.Wait? || step.GiveUp? || step.Lock? || step.Pop? || step.Release? || step.Done?
  }

  lemma WorkerKeepsCount(st: State, step: Step)
    requires Inv(st) && Enabled(st, step) && OfWorker(step)
    ensures Counted(Do(st, step)) && NonEmptyPops(Do(st, step))
  {
    hide Owed, Ordered, DoFlush, InHand;
    if step.Pop? {
      OwedPositive(st.workers, step.i);
    }
    OwedUpdate(st.workers, step.i, Do(st, step).workers[step.i]);
  }

  lemma DispatcherKeepsCount(st: State, step: Step)
    requires Inv(st) && Enabled(st, step) && !OfWorker(step) && !step.Spawn?
    ensures Counted(Do(st, step)) && NonEmptyPops(Do(st, step))
  {
    hide Owed, Ordered, InHand, Exclusive;
  }

  lemma SpawnKeepsCount(st: State)
    requires Inv(st)
    ensures Counted(Do(st, Spawn)) && NonEmptyPops(Do(st, Spawn))
  {
    hide Ordered, Exclusive, InHand, DoFlush;
    assert (st.workers + [Waiting])[..|st.workers|] == st.workers;
  }

  lemma StepKeepsCount(st: State, step: Step)
    requires Inv(st) && Enabled(st, step)
    ensures Counted(Do(st, step)) && NonEmptyPops(Do(st, step))
  {
    hide Inv, Enabled, Do, Counted, NonEmptyPops;
    if OfWorker(step) {
      WorkerKeepsCount(st, step);
    } else if step.Spawn? {
      SpawnKeepsCount(st);
    } else {
      DispatcherKeepsCount(st, step);
    }
  }

  lemma FlushKeepsOrder(st: State)
    requires Ordered(st) && Enabled(st, Flush)
    ensures Ordered(Do(st, Flush))
  {
    var st' := Do(st, Flush);
    if st.overflow != [] {
      assert st'.queue + st'.overflow == st.queue + st.overflow;
      assert st.handed + st.queue + st.overflow == st.handed + (st.queue + st.overflow);
      assert st'.handed + st'.queue + st'.overflow == st.handed + (st'.queue + st'.overflow);
    } else if st.disp.Flushing? {
      assert st.handed + (st.queue + [st.disp.s]) + [] + [] == st.handed + st.queue + [] + [st.disp.s];
    }
  }

  lemma PopKeepsOrder(st: State, i: nat)
    requires Inv(st) && Enabled(st, Pop(i))
    ensures Ordered(Do(st, Pop(i)))
  {
    hide Owed, DoFlush, Exclusive, NonEmptyPops, InHand;
    var st' := Do(st, Pop(i));
    OwedPositive(st.workers, i);
    assert st.handed + st.queue == st'.handed + st'.queue;
  }

  lemma StepKeepsOrder(st: State, step: Step)
    requires Inv(st) && Enabled(st, step)
    ensures Ordered(Do(st, step))
  {
    hide Owed, Exclusive, Counted, NonEmptyPops, DoFlush, DispatcherHolds;
    if step.Flush? {
      FlushKeepsOrder(st);
    } else if step.Pop? {
      PopKeepsOrder(st, step.i);
    } else {
      var whole := st.handed + st.queue + st.overflow;
      assert whole + [] == whole;
      if step.TryLock? {
        assert st.handed + st.queue + (st.overflow + [st.disp.s]) == whole + [st.disp.s];
        assert st.handed + st.queue + (st.overflow + [st.disp.s]) + [] == whole + [st.disp.s];
      }
    }
  }

  lemma WorkerKeepsExclusive(st: State, step: Step)
    requires Exclusive(st) && Enabled(st, step) && OfWorker(step)
    ensures Exclusive(Do(st, step))
  {
    hide DoFlush;
  }

  lemma DispatcherKeepsExclusive(st: State, step: Step)
    requires Exclusive(st) && Enabled(st, step) && !OfWorker(step)
    ensures Exclusive(Do(st, step))
  {
  }

  lemma StepKeepsInv(st: State, step: Step)
    requires Inv(st) && Enabled(st, step)
    ensures Inv(Do(st, step))
  {
    hide Enabled, Do, Exclusive, Counted, Ordered, NonEmptyPops;
    StepKeepsCount(st, step);
    StepKeepsOrder(st, step);
    if OfWorker(step) {
      WorkerKeepsExclusive(st, step);
    } else {
      DispatcherKeepsExclusive(st, step);
    }
  }

  lemma {:induction false} RunKeepsInv(st: State, steps: seq<Step>, end: State)
    requires Inv(st) && Reaches(st, steps, end)
    ensures Inv(end)
    decreases |steps|
  {
    if steps != [] {
      StepKeepsInv(st, steps[0]);
      RunKeepsInv(Do(st, steps[0]), steps[1..], end);
    }
  }

  // ---- Main results: every interleaving, any number of pool threads ----

  /** The queue holds exactly what the semaphore, the woken threads and a pending post account for, so a
      thread about to pop never finds it empty. */
  lemma QueueCounted(steps: seq<Step>, st: State)
    requires Reaches(INIT, steps, st)
    ensures |st.queue| == st.sem + Owed(st.workers) + Unposted(st.disp)
    ensures forall i | 0 <= i < |st.workers| && BetweenWaitAndPop(st.workers[i]) :: st.queue != []
  {
    RunKeepsInv(INIT, steps, st);
    forall i | 0 <= i < |st.workers| && BetweenWaitAndPop(st.workers[i])
      ensures st.queue != []
    {
      OwedPositive(st.workers, i);
    }
  }

  /** No session is lost, duplicated or overtaken: those handed out, queued, overflowing and in hand are,
      in this order, those received.  Sessions reach the pool in arrival order. */
  lemma ArrivalOrder(steps: seq<Step>, st: State)
    requires Reaches(INIT, steps, st)
    ensures st.received == st.handed + st.queue + st.overflow + InHand(st.disp)
    ensures st.handed <= st.received
  {
    RunKeepsInv(INIT, steps, st);
    assert st.received[..|st.handed|] == st.handed;
  }

  /** At most one thread is between lock and unlock. */
  lemma MutualExclusion(steps: seq<Step>, st: State)
    requires Reaches(INIT, steps, st)
    ensures forall i, j | 0 <= i < j < |st.workers| :: !(WorkerHolds(st.workers[i]) && WorkerHolds(st.workers[j]))
    ensures DispatcherHolds(st.disp) ==> forall i | 0 <= i < |st.workers| :: !WorkerHolds(st.workers[i])
  {
    RunKeepsInv(INIT, steps, st);
  }

  // ---- What becomes of a session that was handed out ----

  /** The session that a pool thread has taken off the queue and not finished. */
  function Carried(pc: WorkerPc): multiset<Session> {
    match pc
    case Popped(got) => multiset(got)
    case Handling(s) => multiset{s}
    case _ => multiset{}
  }

  function Carrying(workers: seq<WorkerPc>): multiset<Session> {
    if workers == [] then multiset{} else Carrying(workers[..|workers| - 1]) + Carried(workers[|workers| - 1])
  }

  lemma SumsMove(a: multiset<Session>, b: multiset<Session>, x: multiset<Session>, y: multiset<Session>,
                 c: multiset<Session>)
    requires a + x == b + y
    ensures a + c + x == b + c + y
  {
    assert a + c + x == a + x + c;
    assert b + c + y == b + y + c;
  }

  lemma {:induction false} CarryingUpdate(workers: seq<WorkerPc>, i: nat, pc: WorkerPc)
    requires i < |workers|
    ensures Carrying(workers[i := pc]) + Carried(workers[i]) == Carrying(workers) + Carried(pc)
  {
    hide Carried;
    var n := |workers| - 1;
    if i < n {
      assert workers[i := pc][..n] == workers[..n][i := pc];
      CarryingUpdate(workers[..n], i, pc);
      SumsMove(Carrying(workers[..n][i := pc]), Carrying(workers[..n]), Carried(workers[i]), Carried(pc),
               Carried(workers[n]));
    } else {
      assert workers[i := pc][..n] == workers[..n];
    }
  }

  /** The sessions finished in a run, read off its steps: a thread finishes what it is handling. */
  ghost function Finished(st: State, steps: seq<Step>): seq<Session>
    decreases |steps|
  {
    if steps == [] || !Enabled(st, steps[0]) then []
    else FinishedBy(st, steps[0]) + Finished(Do(st, steps[0]), steps[1..])
  }

  function FinishedBy(st: State, step: Step): seq<Session>
    requires Enabled(st, step)
  {
    if step.Done? then [st.workers[step.i].s] else []
  }

  ghost predicate Balanced(st: State, finished: seq<Session>) {
    multiset(st.handed) == Carrying(st.workers) + multiset(finished)
  }

  lemma StepKeepsBalance(st: State, step: Step, finished: seq<Session>)
    requires Inv(st) && Enabled(st, step) && Balanced(st, finished)
    ensures Balanced(Do(st, step), finished + FinishedBy(st, step))
  {
    hide Carrying, Carried, Exclusive, Counted, Ordered, DoFlush, Do, FinishedBy, TakenBy;
    var st', now := Do(st, step), FinishedBy(st, step);
    if OfWorker(step) {
      var i := step.i;
      WorkerBalance(st, step);
      CarryingUpdate(st.workers, i, st'.workers[i]);
      SumsBalance(multiset(st.handed), multiset(TakenBy(st, step)), Carrying(st.workers), Carrying(st'.workers),
                  Carried(st.workers[i]), Carried(st'.workers[i]), multiset(finished), multiset(now));
    } else {
      OthersBalance(st, step);
      assert finished + [] == finished;
    }
  }

  lemma SumsBalance(h: multiset<Session>, taken: multiset<Session>, c: multiset<Session>, c': multiset<Session>,
                    x: multiset<Session>, x': multiset<Session>, f: multiset<Session>, now: multiset<Session>)
    requires h == c + f && c' + x == c + x' && x + taken == x' + now
    ensures h + taken == c' + (f + now)
  {
    forall e
      ensures (h + taken)[e] == (c' + (f + now))[e]
    {
      assert (c' + x)[e] == (c + x')[e] && (x + taken)[e] == (x' + now)[e];
    }
  }

  /** What a step takes off the queue. */
  function TakenBy(st: State, step: Step): seq<Session> {
    if step.Pop? && st.queue != [] then [st.queue[0]] else []
  }

  /** What a thread had and takes it keeps or finishes. */
  lemma WorkerBalance(st: State, step: Step)
    requires NonEmptyPops(st) && Enabled(st, step) && OfWorker(step)
    ensures var st' := Do(st, step);
            && |st'.workers| == |st.workers|
            && st'.workers == st.workers[step.i := st'.workers[step.i]]
            && st'.handed == st.handed + TakenBy(st, step)
            && Carried(st.workers[step.i]) + multiset(TakenBy(st, step))
                 == Carried(st'.workers[step.i]) + multiset(FinishedBy(st, step))
  {
    hide DoFlush, Carried;
    ThreadBalance(st, step);
  }

  lemma ThreadBalance(st: State, step: Step)
    requires NonEmptyPops(st) && Enabled(st, step) && OfWorker(step)
    ensures Carried(st.workers[step.i]) + multiset(TakenBy(st, step))
         == Carried(Do(st, step).workers[step.i]) + multiset(FinishedBy(st, step))
  {
    hide DoFlush, Carried, NonEmptyPops;
    var before, after := st.workers[step.i], Do(st, step).workers[step.i];
    match step
    case Pop(_) =>
      NoneCarried(before);
      PoppedCarried(TakenBy(st, step));
    case Release(_) => ReleasedCarried(st, step.i);
    case Done(_) =>
      NoneCarried(after);
      HandlingCarried(before.s);
    case _ =>
      NoneCarried(before);
      NoneCarried(after);
  }

  lemma NoneCarried(pc: WorkerPc)
    requires !pc.Popped? && !pc.Handling?
    ensures Carried(pc) == multiset{} == multiset([])
  {
  }

  lemma PoppedCarried(got: seq<Session>)
    ensures Carried(Popped(got)) == multiset(got)
    ensures multiset{} + multiset(got) == multiset(got) + multiset([])
  {
  }

  lemma HandlingCarried(s: Session)
    ensures Carried(Handling(s)) == multiset([s])
    ensures multiset([s]) + multiset([]) == multiset{} + multiset([s])
  {
  }

  lemma ReleasedCarried(st: State, i: nat)
    requires NonEmptyPops(st) && Enabled(st, Release(i))
    ensures Carried(Do(st, Release(i)).workers[i]) == Carried(st.workers[i])
  {
    var got := st.workers[i].got;
    assert got == [got[0]];
    PoppedCarried(got);
    HandlingCarried(got[0]);
  }

  lemma OthersBalance(st: State, step: Step)
    requires Enabled(st, step) && !OfWorker(step)
    ensures Do(st, step).handed == st.handed && Carrying(Do(st, step).workers) == Carrying(st.workers)
    ensures FinishedBy(st, step) == []
  {
    if step.Spawn? {
      assert (st.workers + [Waiting])[..|st.workers|] == st.workers;
    }
  }

  lemma {:induction false} RunBalance(st: State, steps: seq<Step>, end: State, finished: seq<Session>)
    requires Inv(st) && Reaches(st, steps, end) && Balanced(st, finished)
    ensures Balanced(end, finished + Finished(st, steps))
    decreases |steps|
  {
    hide Inv, Balanced, Do, Enabled, FinishedBy;
    if steps == [] {
      assert finished + [] == finished;
    } else {
      var next, now := Do(st, steps[0]), FinishedBy(st, steps[0]);
      StepKeepsBalance(st, steps[0], finished);
      StepKeepsInv(st, steps[0]);
      RunBalance(next, steps[1..], end, finished + now);
      assert finished + now + Finished(next, steps[1..]) == finished + (now + Finished(next, steps[1..]));
    }
  }

  lemma NothingYet()
    ensures Inv(INIT) && Balanced(INIT, [])
  {
  }

  lemma BalanceIs(st: State, finished: seq<Session>)
    requires Balanced(st, finished)
    ensures multiset(st.handed) == Carrying(st.workers) + multiset(finished)
  {
  }

  /** No session handed out is dropped: each is in the hands of the thread that popped it, being handled, or
      finished, exactly once. */
  lemma HandedAreHandled(steps: seq<Step>, st: State)
    requires Reaches(INIT, steps, st)
    ensures multiset(st.handed) == Carrying(st.workers) + multiset(Finished(INIT, steps))
  {
    hide Reaches, Balanced, Finished, Carrying;
    NothingYet();
    RunBalance(INIT, steps, st, []);
    BalanceIs(st, [] + Finished(INIT, steps));
    assert [] + Finished(INIT, steps) == Finished(INIT, steps);
  }

  /** The front of the queue when thread `i` last popped it in a run. */
  ghost function LastPopped(st: State, steps: seq<Step>, i: nat, last: Option<Session>): Option<Session>
    decreases |steps|
  {
    if steps == [] || !Enabled(st, steps[0]) then last
    else LastPopped(Do(st, steps[0]), steps[1..], i,
                    if steps[0] == Pop(i) && st.queue != [] then Some(st.queue[0]) else last)
  }

  /** What a thread has popped or handles is what it popped last. */
  ghost predicate HasLast(st: State, i: nat, last: Option<Session>) {
    i < |st.workers| ==>
      && (st.workers[i].Popped? && st.workers[i].got != [] ==> last == Some(st.workers[i].got[0]))
      && (st.workers[i].Handling? ==> last == Some(st.workers[i].s))
  }

  lemma StepKeepsLast(st: State, step: Step, i: nat, last: Option<Session>)
    requires Inv(st) && Enabled(st, step) && HasLast(st, i, last)
    ensures HasLast(Do(st, step), i, if step == Pop(i) && st.queue != [] then Some(st.queue[0]) else last)
  {
    hide DoFlush, Exclusive, Counted, Ordered;
    if step.Flush? {
      FlushLeavesWorkers(st);
    }
  }

  lemma FlushLeavesWorkers(st: State)
    requires Enabled(st, Flush)
    ensures Do(st, Flush).workers == st.workers
  {
  }

  lemma {:induction false} RunKeepsLast(st: State, steps: seq<Step>, end: State, i: nat, last: Option<Session>)
    requires Inv(st) && Reaches(st, steps, end) && HasLast(st, i, last)
    ensures HasLast(end, i, LastPopped(st, steps, i, last))
    decreases |steps|
  {
    hide Inv, HasLast, Do, Enabled;
    if steps != [] {
      StepKeepsLast(st, steps[0], i, last);
      StepKeepsInv(st, steps[0]);
      RunKeepsLast(Do(st, steps[0]), steps[1..], end, i,
                   if steps[0] == Pop(i) && st.queue != [] then Some(st.queue[0]) else last);
    }
  }

  /** The session a thread handles is the one that was the front of the queue when this thread last popped. */
  lemma HandlesWhatItPopped(steps: seq<Step>, st: State, i: nat)
    requires Reaches(INIT, steps, st) && i < |st.workers| && st.workers[i].Handling?
    ensures LastPopped(INIT, steps, i, None) == Some(st.workers[i].s)
  {
    RunKeepsLast(INIT, steps, st, i, None);
  }

  // ---- Nothing gets stuck but by the timeout's flush ----

  /** A step by which the threads bring on what they have, as against accepting, timing out, leaving or starting. */
  predicate BringsOn(step: Step) {
    && !step.Accept? && !step.Quit? && !step.Timeout? && !step.GiveUp? && !step.Spawn?
  }

  /** Steps left for what is in hand. */
  function DispatcherWork(d: DispatcherPc): nat {
    match d
    case Receiving => 0
    case Received(_) => 9
    case Flushing(_) => 8
    case FlushPosting(_) => 14
    case Unlocking => 7
    case Posting => 6
    case IdleFlushing => 1
    case IdlePosting => 7
    case Stopped => 0
  }

  function WorkerWork(pc: WorkerPc): nat {
    match pc
    case Woken => 4
    case Locked => 3
    case Popped(_) => 2
    case Handling(_) => 1
    case _ => 0
  }

  function WorkersWork(workers: seq<WorkerPc>): nat {
    if workers == [] then 0 else WorkersWork(workers[..|workers| - 1]) + WorkerWork(workers[|workers| - 1])
  }

  function Work(st: State): nat {
    7 * |st.overflow| + DispatcherWork(st.disp) + 5 * st.sem + WorkersWork(st.workers)
  }

  lemma {:induction false} WorkUpdate(workers: seq<WorkerPc>, i: nat, pc: WorkerPc)
    requires i < |workers|
    ensures WorkersWork(workers[i := pc]) + WorkerWork(workers[i]) == WorkersWork(workers) + WorkerWork(pc)
  {
    hide WorkerWork;
    var n := |workers| - 1;
    if i < n {
      assert workers[i := pc][..n] == workers[..n][i := pc];
      WorkUpdate(workers[..n], i, pc);
    } else {
      assert workers[i := pc][..n] == workers[..n];
    }
  }

  /** Some thread has not left. */
  ghost predicate Manned(st: State) {
    exists i :: 0 <= i < |st.workers| && !st.workers[i].Exited?
  }

  /** Bringing on comes to an end, and no thread leaves by it. */
  lemma BringingOnEnds(st: State, step: Step)
    requires Inv(st) && Enabled(st, step) && BringsOn(step) && Manned(st)
    ensures Work(Do(st, step)) < Work(st) && Manned(Do(st, step))
    ensures Do(st, step).received == st.received
  {
    hide Exclusive, Counted, Ordered, WorkersWork;
    var st' := Do(st, step);
    var j :| 0 <= j < |st.workers| && !st.workers[j].Exited?;
    if OfWorker(step) {
      WorkUpdate(st.workers, step.i, st'.workers[step.i]);
    }
    assert !st'.workers[j].Exited?;
  }

  /** Nothing is on its way to a thread or in its hands. */
  ghost predicate AtRest(st: State) {
    && (st.disp.Receiving? || st.disp.Stopped?) && st.sem == 0
    && (forall i | 0 <= i < |st.workers| :: st.workers[i].Waiting? || st.workers[i].Exited?)
  }

  /** No deadlock: until all is at rest, some thread can go on, unless the mutex was lost. */
  lemma SomeCanGoOn(st: State) returns (step: Step)
    requires Inv(st) && !Stuck(st) && Manned(st) && !AtRest(st)
    requires Owned(st)
    ensures Enabled(st, step) && BringsOn(step)
  {
    hide Counted, Ordered, Inv, NonEmptyPops;
    if st.disp.Received? {
      return TryLock;
    } else if st.disp.Flushing? || st.disp.IdleFlushing? {
      return Flush;
    } else if st.disp.FlushPosting? || st.disp.IdlePosting? || st.disp.Posting? {
      return Post;
    } else if st.disp.Unlocking? {
      return Unlock;
    } else if i :| 0 <= i < |st.workers| && st.workers[i].Locked? {
      return Pop(i);
    } else if i :| 0 <= i < |st.workers| && st.workers[i].Popped? {
      return Release(i);
    } else if i :| 0 <= i < |st.workers| && st.workers[i].Handling? {
      return Done(i);
    } else if i :| 0 <= i < |st.workers| && st.workers[i].Woken? {
      return Lock(i);
    } else {
      var i :| 0 <= i < |st.workers| && !st.workers[i].Exited?;
      return Wait(i);
    }
  }

  /** A mutex that is held is held by someone who is between lock and unlock, or was lost. */
  ghost predicate Owned(st: State) {
    match st.mutex
    case Nobody => true
    case Dispatcher => DispatcherHolds(st.disp) || Stuck(st)
    case Pool(i) => i < |st.workers| && WorkerHolds(st.workers[i])
  }

  lemma StepKeepsOwned(st: State, step: Step)
    requires Inv(st) && Enabled(st, step) && Owned(st)
    ensures Owned(Do(st, step))
  {
    hide Counted, Ordered, NonEmptyPops;
  }

  lemma {:induction false} RunKeepsOwned(st: State, steps: seq<Step>, end: State)
    requires Inv(st) && Reaches(st, steps, end) && Owned(st)
    ensures Owned(end)
    decreases |steps|
  {
    hide Inv, Owned, Do, Enabled;
    if steps != [] {
      StepKeepsInv(st, steps[0]);
      StepKeepsOwned(st, steps[0]);
      RunKeepsOwned(Do(st, steps[0]), steps[1..], end);
    }
  }

  /** All steps but one are of the kind that brings on. */
  ghost predicate OnlyBringsOn(steps: seq<Step>) {
    forall i | 0 <= i < |steps| :: BringsOn(steps[i])
  }

  lemma {:induction false} ComesToRest(st: State) returns (steps: seq<Step>, end: State)
    requires Inv(st) && !Stuck(st) && Manned(st) && Owned(st)
    ensures Reaches(st, steps, end) && OnlyBringsOn(steps) && AtRest(end)
    ensures end.received == st.received && (Emptying(st) ==> Emptying(end))
    decreases Work(st)
  {
    hide Inv, Stuck, Manned, Owned, AtRest, Do, Enabled, Work, BringsOn, Emptying;
    if AtRest(st) {
      return [], st;
    }
    var step := SomeCanGoOn(st);
    BringingOnEnds(st, step);
    StepKeepsInv(st, step);
    StepKeepsOwned(st, step);
    NotStuckByBringing(st, step);
    StepKeepsEmptying(st, step);
    var more;
    more, end := ComesToRest(Do(st, step));
    steps := [step] + more;
    assert steps[1..] == more;
  }

  /** The overflow loop with a session in hand ends with the overflow queue empty. */
  ghost predicate Emptying(st: State) {
    !st.disp.Received? && (st.overflow == [] || st.disp.Flushing? || st.disp.FlushPosting?)
  }

  lemma StepKeepsEmptying(st: State, step: Step)
    requires Enabled(st, step) && BringsOn(step)
    ensures Emptying(st) ==> Emptying(Do(st, step))
  {
  }

  lemma NotStuckByBringing(st: State, step: Step)
    requires Inv(st) && Enabled(st, step) && BringsOn(step) && !Stuck(st)
    ensures !Stuck(Do(st, step))
  {
    hide Inv;
    StuckStep(st, step);
  }

  lemma RestIsDone(st: State)
    requires Inv(st) && AtRest(st)
    ensures st.queue == [] && InHand(st.disp) == [] && Carrying(st.workers) == multiset{}
  {
    hide Exclusive, Ordered, NonEmptyPops;
    NoneOwed(st.workers);
  }

  lemma {:induction false} NoneOwed(workers: seq<WorkerPc>)
    requires forall i | 0 <= i < |workers| :: workers[i].Waiting? || workers[i].Exited?
    ensures Owed(workers) == 0 && Carrying(workers) == multiset{}
  {
    if workers != [] {
      NoneOwed(workers[..|workers| - 1]);
    }
  }

  /** Main result: in every state that a run reaches without the timeout's flush and with a pool thread left, the
      threads can, with no more session accepted, finish every session received but those that are or go into the
      overflow queue. */
  lemma AllCanBeFinished(steps: seq<Step>, st: State) returns (later: seq<Step>, end: State)
    requires Reaches(INIT, steps, st) && !SomeIdleFlush(INIT, steps) && Manned(st)
    ensures Reaches(st, later, end) && OnlyBringsOn(later) && AtRest(end)
    ensures end.received == st.received && (Emptying(st) ==> Emptying(end))
    ensures multiset(st.received) == multiset(Finished(INIT, steps + later)) + multiset(end.overflow)
  {
    hide Reaches, Stuck, Manned, Owned, AtRest, OnlyBringsOn, Carrying, Inv, Finished, SomeIdleFlush, Emptying;
    StartNotStuck();
    RunKeepsInv(INIT, steps, st);
    RunKeepsOwned(INIT, steps, st);
    StuckRun(INIT, steps, st);
    later, end := ComesToRest(st);
    RunsJoin(INIT, steps, st, later, end);
    FinishedAtRest(steps + later, end);
  }

  lemma FinishedAtRest(steps: seq<Step>, end: State)
    requires Reaches(INIT, steps, end) && AtRest(end)
    ensures multiset(end.received) == multiset(Finished(INIT, steps)) + multiset(end.overflow)
  {
    hide Reaches, AtRest, Carrying, Inv, Finished;
    StartNotStuck();
    RunKeepsInv(INIT, steps, end);
    RestIsDone(end);
    HandedAreHandled(steps, end);
    ArrivalOrder(steps, end);
    assert end.received == end.handed + end.overflow;
    assert multiset{} + multiset(Finished(INIT, steps)) == multiset(Finished(INIT, steps));
  }

  /** With one more session accepted those in the overflow queue are finished too. */
  lemma OverflowCanBeFinished(steps: seq<Step>, st: State, s: Session) returns (later: seq<Step>, end: State)
    requires Reaches(INIT, steps, st) && !SomeIdleFlush(INIT, steps) && Manned(st) && AtRest(st) && st.disp.Receiving?
    ensures Reaches(st, [Accept(s), TryLock] + later, end) && OnlyBringsOn(later)
    ensures multiset(st.received + [s]) == multiset(Finished(INIT, steps + ([Accept(s), TryLock] + later)))
  {
    hide Reaches, Stuck, Manned, Owned, AtRest, OnlyBringsOn, Carrying, Inv, Finished, SomeIdleFlush, Emptying, Do;
    StartNotStuck();
    RunKeepsInv(INIT, steps, st);
    RunKeepsOwned(INIT, steps, st);
    StuckRun(INIT, steps, st);
    var pair := [Accept(s), TryLock];
    var mid := AcceptAtRest(st, s);
    RunsJoin(INIT, steps, st, pair, mid);
    FlushJoins(INIT, steps, st, pair);
    later, end := AllCanBeFinished(steps + pair, mid);
    RunsJoin(st, pair, mid, later, end);
    assert steps + pair + later == steps + (pair + later);
    NoneLeft(end);
  }

  lemma AcceptAtRest(st: State, s: Session) returns (mid: State)
    requires Inv(st) && Owned(st) && !Stuck(st) && Manned(st) && AtRest(st) && st.disp.Receiving?
    ensures Reaches(st, [Accept(s), TryLock], mid) && !SomeIdleFlush(st, [Accept(s), TryLock])
    ensures Manned(mid) && Emptying(mid) && mid.received == st.received + [s]
  {
    var next := Do(st, Accept(s));
    mid := Do(next, TryLock);
    var pair := [Accept(s), TryLock];
    assert pair[1..] == [TryLock] && [TryLock][1..] == [];
    assert Reaches(mid, [], mid) && Reaches(next, [TryLock], mid);
    assert !SomeIdleFlush(mid, []) && !SomeIdleFlush(next, [TryLock]);
    var i :| 0 <= i < |st.workers| && !st.workers[i].Exited?;
    assert !mid.workers[i].Exited?;
  }

  lemma {:induction false} FlushJoins(st: State, a: seq<Step>, mid: State, b: seq<Step>)
    requires Reaches(st, a, mid)
    ensures SomeIdleFlush(st, a + b) <==> SomeIdleFlush(st, a) || SomeIdleFlush(mid, b)
    decreases |a|
  {
    hide Do, Enabled, EntersIdleFlush;
    if a == [] {
      assert a + b == b;
    } else {
      FlushJoins(Do(st, a[0]), a[1..], mid, b);
      assert (a + b)[1..] == a[1..] + b;
    }
  }

  lemma NoneLeft(end: State)
    requires AtRest(end) && Emptying(end)
    ensures end.overflow == [] && multiset(end.overflow) == multiset{}
    ensures forall m: multiset<Session> :: m + multiset(end.overflow) == m
  {
  }

  lemma StartNotStuck()
    ensures Inv(INIT) && Owned(INIT) && !Stuck(INIT)
  {
  }

  lemma {:induction false} RunsJoin(st: State, a: seq<Step>, mid: State, b: seq<Step>, end: State)
    requires Reaches(st, a, mid) && Reaches(mid, b, end)
    ensures Reaches(st, a + b, end)
    decreases |a|
  {
    hide Do, Enabled;
    if a == [] {
      assert a + b == b;
    } else {
      RunsJoin(Do(st, a[0]), a[1..], mid, b, end);
      assert (a + b)[1..] == a[1..] + b;
    }
  }

  /** A started thread waits for sessions. */
  lemma SpawnMans(st: State)
    ensures Manned(Do(st, Spawn))
  {
    var i := |st.workers|;
    assert !Do(st, Spawn).workers[i].Exited?;
  }

  // ---- The mutex the receive timeout never gives back ----

  /** The dispatcher has left the timeout's flush, or is in it. */
  ghost predicate Stuck(st: State) {
    st.mutex == Dispatcher && !st.disp.Flushing? && !st.disp.FlushPosting? && !st.disp.Unlocking?
  }

  /** This step enters the timeout's flush. */
  predicate EntersIdleFlush(st: State, step: Step) {
    step.Timeout? && st.disp.Receiving? && st.overflow != [] && st.mutex == Nobody
  }

  ghost predicate SomeIdleFlush(st: State, steps: seq<Step>)
    decreases |steps|
  {
    steps != [] && Enabled(st, steps[0])
    && (EntersIdleFlush(st, steps[0]) || SomeIdleFlush(Do(st, steps[0]), steps[1..]))
  }

  lemma StuckStep(st: State, step: Step)
    requires Inv(st) && Enabled(st, step)
    ensures Stuck(Do(st, step)) <==> Stuck(st) || EntersIdleFlush(st, step)
    ensures Stuck(st) ==> Do(st, step).handed == st.handed
  {
  }

  lemma {:induction false} StuckRun(st: State, steps: seq<Step>, end: State)
    requires Inv(st) && Reaches(st, steps, end)
    ensures Stuck(end) <==> Stuck(st) || SomeIdleFlush(st, steps)
    ensures Stuck(st) ==> end.handed == st.handed
    decreases |steps|
  {
    if steps != [] {
      StuckStep(st, steps[0]);
      StepKeepsInv(st, steps[0]);
      StuckRun(Do(st, steps[0]), steps[1..], end);
    }
  }

  /** Exactly the runs in which a receive timeout found the overflow queue non-empty and the mutex free end
      with the mutex lost, and from then on no session is ever handed out again. */
  lemma HandoffStopsExactlyAfterIdleFlush(steps: seq<Step>, st: State, later: seq<Step>, end: State)
    requires Reaches(INIT, steps, st) && Reaches(st, later, end)
    ensures Stuck(st) <==> SomeIdleFlush(INIT, steps)
    ensures SomeIdleFlush(INIT, steps) ==> end.handed == st.handed
  {
    RunKeepsInv(INIT, steps, st);
    StuckRun(INIT, steps, st);
    StuckRun(st, later, end);
  }

  /** What the timeout's flush does before that: it brings the whole overflow queue, in order, into the shared queue,
      each session posted. */
  lemma IdleFlushEmpties(st: State) returns (steps: seq<Step>, end: State)
    requires Enabled(st, Timeout) && EntersIdleFlush(st, Timeout)
    ensures Reaches(st, [Timeout] + steps, end) && forall i | 0 <= i < |steps| :: steps[i].Flush? || steps[i].Post?
    ensures end == st.(queue := st.queue + st.overflow, overflow := [], sem := st.sem + |st.overflow|,
                       mutex := Dispatcher)
  {
    var mid := Do(st, Timeout);
    steps, end := FlushesEmpty(mid);
    assert ([Timeout] + steps)[1..] == steps;
  }

  lemma {:induction false} FlushesEmpty(st: State) returns (steps: seq<Step>, end: State)
    requires st.disp.IdleFlushing?
    ensures Reaches(st, steps, end) && forall i | 0 <= i < |steps| :: steps[i].Flush? || steps[i].Post?
    ensures end == st.(queue := st.queue + st.overflow, overflow := [], sem := st.sem + |st.overflow|,
                       disp := Receiving)
    decreases |st.overflow|
  {
    var next := Do(st, Flush);
    if st.overflow == [] {
      steps, end := [Flush], next;
      assert steps[1..] == [] && st.queue + [] == st.queue;
      assert Reaches(next, [], next);
    } else {
      var posted := Do(next, Post);
      var more;
      more, end := FlushesEmpty(posted);
      steps := [Flush, Post] + more;
      assert steps[1..] == [Post] + more && ([Post] + more)[1..] == more;
      assert Reaches(next, [Post] + more, end);
      assert st.queue + [st.overflow[0]] + st.overflow[1..] == st.queue + st.overflow;
    }
  }
}
