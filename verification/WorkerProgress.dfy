/**
  * What becomes of a dispatched message: it is refused exactly by a full ring of 32, a waiting worker
  * with a message is about to be signalled, and an accepted message is handled within a number of its
  * worker's own steps.
  */
module WorkerProgress {
  import opened Options
  import opened WorkerPool
  import RingQueue

  // ---------------------------------------------------------------- the queues

  /** A dispatch is an enqueue on a bounded sequence of 32, and changes nothing else of the worker. */
  lemma {:induction false} OfferedEnqueues(w: Worker, m: Message)
    ensures var (queue, answer) := RingQueue.FifoStep(w.queue, 32, RingQueue.Enqueue(m));
            && (answer == RingQueue.Accepted <==> |w.queue| != 32)
            && Offered(w, m) == if answer == RingQueue.Accepted
                                then w.(queue := queue, accepted := w.accepted + [m])
                                else w
  {
  }

  /** The worker's ring: of capacity 32, and holding what the worker's queue holds. */
  ghost predicate OnRing(q: RingQueue.Ring<Message>, w: Worker)
  {
    RingQueue.Valid(q) && q.capacity == 32 && RingQueue.Contents(q) == w.queue
  }

  /** So does the ring, wherever its counters are. */
  lemma {:induction false} OfferedOnRing(q: RingQueue.Ring<Message>, w: Worker, m: Message)
    requires OnRing(q, w)
    ensures var (r, answer) := RingQueue.Step(q, RingQueue.Enqueue(m));
            OnRing(r, Offered(w, m)) && (answer == RingQueue.Accepted <==> |w.queue| != 32)
  {
    RingQueue.StepRefines(q, RingQueue.Enqueue(m));
  }

  /** The steps that dequeue. */
  predicate Dequeues(w: Worker, a: WorkerStep)
  {
    a.TakeJob? || a.Drain? || (a.Recheck? && !w.state.ShutdownRequest?)
  }

  /** A worker's step dequeues from its ring exactly what it goes on with; no other step changes the queue. */
  lemma {:induction false} TakenFromRing(q: RingQueue.Ring<Message>, w: Worker, a: WorkerStep)
    requires OnRing(q, w) && Ready(w.pc, a)
    ensures !Dequeues(w, a) ==> OnRing(q, WorkerNext(w, a))
    ensures Dequeues(w, a) ==>
              var (r, answer) := RingQueue.Step(q, RingQueue.Dequeue);
              var v := WorkerNext(w, a);
              && OnRing(r, v)
              && (answer.Element? <==> w.queue != [])
              && (answer.Element? ==>
                    if a.Drain? then v.pc == w.pc && v.cleaned == w.cleaned + [answer.value]
                    else v.pc == Invoking(Some(answer.value)))
              && (!answer.Element? ==>
                    v.pc == if a.Drain? then Exited else if a.TakeJob? then Waiting else Invoking(None))
  {
    RingQueue.StepRefines(q, RingQueue.Dequeue);
  }

  // ---------------------------------------------------------------- dispatched and refused

  lemma {:induction false} QueueBound(s: Pool, steps: seq<Step>, i: nat)
    requires IsRun(s, steps) && i < |s.workers| && |s.workers[i].queue| <= 32
    ensures |After(s, steps).workers[i].queue| <= 32
    decreases |steps|
  {
    if steps != [] {
      QueueBound(Next(s, steps[0]), steps[1..], i);
    }
  }

  /** What a worker accepts later comes behind what it has, and has a later number. */
  lemma {:induction false} AcceptedGrows(s: Pool, steps: seq<Step>, i: nat)
    requires IsRun(s, steps) && i < |s.workers|
    ensures var before, after := s.workers[i].accepted, After(s, steps).workers[i].accepted;
            before <= after && forall j | |before| <= j < |after| :: after[j] >= s.dispatched
    decreases |steps|
  {
    if steps != [] {
      AcceptedGrows(Next(s, steps[0]), steps[1..], i);
    }
  }

  /** A dispatch gives its number to the worker whose turn it is, if that worker's queue is not full. */
  lemma {:induction false} DispatchAccepts(s: Pool, i: nat)
    requires Invariant(s) && Enabled(s, Dispatch) && i < |s.workers| && |s.workers[i].queue| <= 32
    ensures s.dispatched in Next(s, Dispatch).workers[i].accepted <==>
            i == s.dispatched % |s.workers| && |s.workers[i].queue| < 32
  {
    assert WorkerOk(s, i);
  }

  /**
    * In every run: the dispatch with number `m` is accepted by worker `m % n`, and by no other, if fewer
    * than 32 messages are queued there at that moment, and by none at all otherwise.
    */
  lemma {:induction false} RefusedExactly(n: nat, before: seq<Step>, after: seq<Step>, i: nat)
    requires i < n && IsRun(Initial(n), before + ([Dispatch] + after))
    ensures IsRun(Initial(n), before)
    ensures var s := After(Initial(n), before);
            var t := After(Initial(n), before + ([Dispatch] + after));
            s.dispatched in t.workers[i].accepted <==> i == s.dispatched % n && |s.workers[i].queue| < 32
  {
    RunSplit(Initial(n), before, [Dispatch] + after);
    var s := After(Initial(n), before);
    assert ([Dispatch] + after)[0] == Dispatch && ([Dispatch] + after)[1..] == after;
    InitialInvariant(n);
    RunInvariant(Initial(n), before);
    QueueBound(Initial(n), before, i);
    DispatchAccepts(s, i);
    AcceptedGrows(Next(s, Dispatch), after, i);
  }

  /** The number of dispatches in a run. */
  function Dispatches(steps: seq<Step>): (n: nat)
  {
    if steps == [] then 0 else (if steps[0].Dispatch? then 1 else 0) + Dispatches(steps[1..])
  }

  /** Messages are numbered in the order of dispatch, whether they are accepted or not. */
  lemma {:induction false} NumberedInOrder(s: Pool, steps: seq<Step>)
    requires IsRun(s, steps)
    ensures After(s, steps).dispatched == s.dispatched + Dispatches(steps)
    decreases |steps|
  {
    if steps != [] {
      NumberedInOrder(Next(s, steps[0]), steps[1..]);
    }
  }

  // ---------------------------------------------------------------- no lost wake-up

  /** A worker that waits with a message in its queue is the one about to be signalled. */
  predicate Attended(s: Pool, i: nat)
    requires i < |s.workers|
  {
    s.workers[i].pc.Waiting? && s.workers[i].queue != [] ==> s.dispatcher == Signalling(i)
  }

  lemma {:induction false} StepAttends(s: Pool, a: Step, i: nat)
    requires Enabled(s, a) && i < |s.workers| && Attended(s, i)
    ensures Attended(Next(s, a), i)
  {
  }

  lemma {:induction false} RunAttends(s: Pool, steps: seq<Step>, i: nat)
    requires IsRun(s, steps) && i < |s.workers| && Attended(s, i)
    ensures Attended(After(s, steps), i)
    decreases |steps|
  {
    if steps != [] {
      StepAttends(s, steps[0], i);
      RunAttends(Next(s, steps[0]), steps[1..], i);
    }
  }

  /**
    * No wake-up is lost: in every run, a worker with a message in its queue and no null job has a step of
    * its own to take, or the dispatcher is about to signal it.
    */
  lemma {:induction false} NoLostWakeup(n: nat, steps: seq<Step>, i: nat)
    requires i < n && IsRun(Initial(n), steps)
    ensures var s := After(Initial(n), steps);
            var w := s.workers[i];
            w.queue != [] && !w.pc.Faulted? ==>
              || (exists a :: a != SpuriousWake && Enabled(s, Work(i, a)))
              || (s.dispatcher == Signalling(i) && Enabled(s, SendSignal))
  {
    var s := After(Initial(n), steps);
    var w := s.workers[i];
    InitialInvariant(n);
    RunInvariant(Initial(n), steps);
    RunAttends(Initial(n), steps, i);
    assert WorkerOk(s, i);
    if w.queue != [] && !w.pc.Faulted? && !w.pc.Waiting? {
      var a := match w.pc
        case Begin => Start
        case Top => TakeJob
        case AfterWait => Recheck
        case Invoking(_) => Invoke
        case Cleaning(_) => Clean
        case AfterJob => CheckExit
        case _ => Drain;
      assert Enabled(s, Work(i, a));
    }
  }

  // ---------------------------------------------------------------- the server thread

  /** The worker the server thread is busy with is one of the pool. */
  predicate Addressed(s: Pool)
  {
    match s.dispatcher
    case Signalling(i) => i < |s.workers|
    case Requesting(i) => i < |s.workers|
    case Rousing(i) => i < |s.workers|
    case Joining(i) => i < |s.workers|
    case _ => true
  }

  lemma {:induction false} RunAddressed(s: Pool, steps: seq<Step>)
    requires IsRun(s, steps) && Addressed(s)
    ensures Addressed(After(s, steps))
    decreases |steps|
  {
    if steps != [] {
      RunAddressed(Next(s, steps[0]), steps[1..]);
    }
  }

  /** In every run the server thread is held up by nothing but the join of a worker that has not exited. */
  lemma {:induction false} ServerThreadFree(n: nat, steps: seq<Step>)
    requires n > 0 && IsRun(Initial(n), steps)
    ensures var s := After(Initial(n), steps);
            match s.dispatcher
            case Idle => Enabled(s, Dispatch) && Enabled(s, Destroy)
            case Signalling(_) => Enabled(s, SendSignal)
            case Requesting(_) => Enabled(s, RequestShutdown)
            case Rousing(_) => Enabled(s, Rouse)
            case Joining(i) => i < n && (Enabled(s, Join) <==> s.workers[i].pc.Exited?)
            case Done => true
  {
    InitialInvariant(n);
    RunInvariant(Initial(n), steps);
    RunAddressed(Initial(n), steps);
  }

  // ---------------------------------------------------------------- handled in time

  /** How many steps of its own a worker takes at most until it has handled the message at place `p`. */
  function Delay(pc: Pc, p: nat): (n: nat)
  {
    4 * p + match pc
            case Top => 2
            case AfterWait => 2
            case Begin => 3
            case Waiting => 3
            case AfterJob => 3
            case Cleaning(_) => 4
            case _ => 5
  }

  lemma {:induction false} InvokedGrows(s: Pool, steps: seq<Step>, i: nat)
    requires IsRun(s, steps) && i < |s.workers|
    ensures s.workers[i].invoked <= After(s, steps).workers[i].invoked
    decreases |steps|
  {
    if steps != [] {
      InvokedGrows(Next(s, steps[0]), steps[1..], i);
    }
  }

  /** The message in hand is handled by the worker's next step. */
  lemma {:induction false} InvokedNext(s: Pool, steps: seq<Step>, i: nat, m: Message)
    requires IsRun(s, steps) && i < |s.workers| && s.workers[i].pc == Invoking(Some(m))
    requires OwnSteps(steps, i) > 0
    ensures m in After(s, steps).workers[i].invoked
    decreases |steps|
  {
    var a := steps[0];
    if a.Work? && a.w == i {
      assert m == Next(s, a).workers[i].invoked[|s.workers[i].invoked|];
      InvokedGrows(Next(s, a), steps[1..], i);
    } else {
      InvokedNext(Next(s, a), steps[1..], i, m);
    }
  }

  /** A worker that serves: it has no null job and has not been asked to shut down. */
  ghost predicate Serving(s: Pool, i: nat)
  {
    && i < |s.workers| && !Destroying(s.dispatcher)
    && !NullJob(s.workers[i]) && Closed(s.workers[i], s.dispatcher)
  }

  /** Whatever step is taken, the message at place `p` comes nearer, or comes in hand. */
  lemma {:induction false} StepNears(s: Pool, a: Step, i: nat, p: nat)
    requires Enabled(s, a) && !a.Destroy? && Serving(s, i) && p < |s.workers[i].queue|
    ensures var m, w, v := s.workers[i].queue[p], s.workers[i], Next(s, a).workers[i];
            var own := if a.Work? && a.w == i then 1 else 0;
            if v.pc == Invoking(Some(m)) && v.queue == w.queue[1..] && p == 0 then own == 1 else
              var q := if own == 1 && v.queue != w.queue then p - 1 else p;
              && q >= 0 && q < |v.queue| && v.queue[q] == m && Serving(Next(s, a), i)
              && Delay(v.pc, q) + own <= Delay(w.pc, p)
  {
  }

  /**
    * In every run without a destruction, whatever else runs in between: a queued message has been handled
    * once its worker has taken the steps of its delay.
    */
  lemma {:induction false} HandledWithin(s: Pool, steps: seq<Step>, i: nat, p: nat)
    requires IsRun(s, steps) && Destroy !in steps && Serving(s, i) && p < |s.workers[i].queue|
    requires OwnSteps(steps, i) >= Delay(s.workers[i].pc, p)
    ensures s.workers[i].queue[p] in After(s, steps).workers[i].invoked
    decreases |steps|
  {
    var a, rest, m := steps[0], steps[1..], s.workers[i].queue[p];
    var t := Next(s, a);
    StepNears(s, a, i, p);
    var w, v := s.workers[i], t.workers[i];
    if v.pc == Invoking(Some(m)) && v.queue == w.queue[1..] && p == 0 {
      InvokedNext(t, rest, i, m);
    } else {
      var q: nat := if a.Work? && a.w == i && v.queue != w.queue then p - 1 else p;
      HandledWithin(t, rest, i, q);
    }
  }

  lemma {:induction false} NotDestroying(s: Pool, steps: seq<Step>)
    requires IsRun(s, steps) && Destroy !in steps && !Destroying(s.dispatcher)
    ensures !Destroying(After(s, steps).dispatcher)
    decreases |steps|
  {
    if steps != [] {
      NotDestroying(Next(s, steps[0]), steps[1..]);
    }
  }

  /** The same for every run from the start, at any moment of which the worker has no null job. */
  lemma {:induction false} RunHandles(n: nat, before: seq<Step>, after: seq<Step>, i: nat, p: nat)
    requires i < n && IsRun(Initial(n), before + after) && Destroy !in before + after
    requires IsRun(Initial(n), before) && !NullJob(After(Initial(n), before).workers[i])
    requires p < |After(Initial(n), before).workers[i].queue|
    requires OwnSteps(after, i) >= Delay(After(Initial(n), before).workers[i].pc, p)
    ensures After(Initial(n), before).workers[i].queue[p] in After(Initial(n), before + after).workers[i].invoked
  {
    var s := After(Initial(n), before);
    RunSplit(Initial(n), before, after);
    InitialInvariant(n);
    RunInvariant(Initial(n), before);
    NotDestroying(Initial(n), before);
    assert WorkerOk(s, i);
    HandledWithin(s, after, i, p);
  }
}
