/**
  * The round-robin worker pool: a dispatching thread and `n` workers with bounded job queues, as a
  * state machine over every interleaving, with signals that may arrive late and spurious wake-ups.
  * A message is named by its number in the order of dispatch.
  */
module WorkerPool {
  import BitMask
  import opened Options

  const QUEUE_SIZE: nat := 32

  type Message = nat

  datatype WorkerState = Startup | Alive | ShutdownRequest | Shutdown

  /** Where a worker thread is; `Invoking(None)` is a null job about to be handled. */
  datatype Pc =
    | Begin | Top | Waiting | AfterWait
    | Invoking(job: Option<Message>) | Cleaning(done: Message) | AfterJob
    | Draining | Exited
    | Faulted // the null job was dereferenced

  /** `accepted`, `invoked` and `cleaned` record what happened to this worker's messages, in order. */
  datatype Worker = Worker(state: WorkerState, pc: Pc, queue: seq<Message>,
                           accepted: seq<Message>, invoked: seq<Message>, cleaned: seq<Message>)

  /** Where the server thread is: between dispatches, about to signal, or destroying the workers in turn. */
  datatype Dispatcher = Idle | Signalling(to: nat) | Requesting(i: nat) | Rousing(i: nat) | Joining(i: nat) | Done

  datatype Pool = Pool(workers: seq<Worker>, rrIndex: nat, dispatched: nat, dispatcher: Dispatcher)

  datatype WorkerStep = Start | TakeJob | SpuriousWake | Recheck | Invoke | Clean | CheckExit | Drain

  datatype Step =
    | Dispatch | SendSignal | Destroy | RequestShutdown | Rouse | Join
    | Work(w: nat, a: WorkerStep)

  predicate Ready(pc: Pc, a: WorkerStep)
  {
    match a
    case Start => pc.Begin?
    case TakeJob => pc.Top?
    case SpuriousWake => pc.Waiting?
    case Recheck => pc.AfterWait?
    case Invoke => pc.Invoking?
    case Clean => pc.Cleaning?
    case CheckExit => pc.AfterJob?
    case Drain => pc.Draining?
  }

  predicate Enabled(s: Pool, a: Step)
  {
    match a
    case Dispatch => s.dispatcher.Idle? && s.rrIndex < |s.workers|
    case SendSignal => s.dispatcher.Signalling? && s.dispatcher.to < |s.workers|
    case Destroy => s.dispatcher.Idle?
    case RequestShutdown => s.dispatcher.Requesting? && s.dispatcher.i < |s.workers|
    case Rouse => s.dispatcher.Rousing? && s.dispatcher.i < |s.workers|
    case Join => s.dispatcher.Joining? && s.dispatcher.i < |s.workers| && s.workers[s.dispatcher.i].pc.Exited?
    case Work(w, b) => w < |s.workers| && Ready(s.workers[w].pc, b)
  }

  /** A signal reaches the worker only if it is waiting. */
  function Signalled(w: Worker): (v: Worker)
  {
    if w.pc.Waiting? then w.(pc := AfterWait) else w
  }

  /** One step of a worker thread. */
  function WorkerNext(w: Worker, a: WorkerStep): (v: Worker)
    requires Ready(w.pc, a)
  {
    match a
    case Start => w.(state := Alive, pc := Top)
    case TakeJob =>
      if w.queue == [] then w.(pc := Waiting) else w.(pc := Invoking(Some(w.queue[0])), queue := w.queue[1..])
    case SpuriousWake => w.(pc := AfterWait)
    case Recheck =>
      if w.state.ShutdownRequest? then w.(state := Shutdown, pc := Draining)
      else if w.queue == [] then w.(pc := Invoking(None))
      else w.(pc := Invoking(Some(w.queue[0])), queue := w.queue[1..])
    case Invoke =>
      if w.pc.job.Some?
      then w.(pc := Cleaning(w.pc.job.value), invoked := w.invoked + [w.pc.job.value])
      else w.(pc := Faulted)
    case Clean => w.(pc := AfterJob, cleaned := w.cleaned + [w.pc.done])
    case CheckExit =>
      if w.state.ShutdownRequest? then w.(state := Shutdown, pc := Draining) else w.(pc := Top)
    case Drain =>
      if w.queue == [] then w.(pc := Exited)
      else w.(queue := w.queue[1..], cleaned := w.cleaned + [w.queue[0]])
  }

  /** What a dispatch does to the chosen worker: a full queue refuses the message. */
  function Offered(w: Worker, m: Message): (v: Worker)
  {
    if |w.queue| == QUEUE_SIZE then w else w.(queue := w.queue + [m], accepted := w.accepted + [m])
  }

  function Next(s: Pool, a: Step): (s': Pool)
    requires Enabled(s, a)
    ensures |s'.workers| == |s.workers|
  {
    match a
    case Dispatch =>
      s.(workers := s.workers[s.rrIndex := Offered(s.workers[s.rrIndex], s.dispatched)],
         dispatched := s.dispatched + 1, dispatcher := Signalling(s.rrIndex))
    case SendSignal =>
      s.(workers := s.workers[s.dispatcher.to := Signalled(s.workers[s.dispatcher.to])],
         rrIndex := if s.rrIndex + 1 == |s.workers| then 0 else s.rrIndex + 1, dispatcher := Idle)
    case Destroy => s.(dispatcher := if s.workers == [] then Done else Requesting(0))
    case RequestShutdown =>
      s.(workers := s.workers[s.dispatcher.i := s.workers[s.dispatcher.i].(state := ShutdownRequest)],
         dispatcher := Rousing(s.dispatcher.i))
    case Rouse =>
      s.(workers := s.workers[s.dispatcher.i := Signalled(s.workers[s.dispatcher.i])],
         dispatcher := Joining(s.dispatcher.i))
    case Join => s.(dispatcher := if s.dispatcher.i + 1 == |s.workers| then Done else Requesting(s.dispatcher.i + 1))
    case Work(w, b) => s.(workers := s.workers[w := WorkerNext(s.workers[w], b)])
  }

  function Initial(n: nat): (s: Pool)
  {
    Pool(seq(n, _ => Worker(Startup, Begin, [], [], [], [])), 0, 0, Idle)
  }

  ghost predicate IsRun(s: Pool, steps: seq<Step>)
    decreases |steps|
  {
    steps == [] || (Enabled(s, steps[0]) && IsRun(Next(s, steps[0]), steps[1..]))
  }

  ghost function After(s: Pool, steps: seq<Step>): (s': Pool)
    requires IsRun(s, steps)
    ensures |s'.workers| == |s.workers|
    decreases |steps|
  {
    if steps == [] then s else After(Next(s, steps[0]), steps[1..])
  }

  lemma {:induction false} RunCons(s: Pool, a: Step, rest: seq<Step>)
    requires Enabled(s, a) && IsRun(Next(s, a), rest)
    ensures IsRun(s, [a] + rest) && After(s, [a] + rest) == After(Next(s, a), rest)
  {
    assert ([a] + rest)[1..] == rest;
  }

  lemma {:induction false} RunConcat(s: Pool, a: seq<Step>, b: seq<Step>)
    requires IsRun(s, a) && IsRun(After(s, a), b)
    ensures IsRun(s, a + b) && After(s, a + b) == After(After(s, a), b)
    decreases |a|
  {
    if a == [] {
      assert a + b == b;
    } else {
      assert (a + b)[0] == a[0] && (a + b)[1..] == a[1..] + b;
      RunConcat(Next(s, a[0]), a[1..], b);
    }
  }

  lemma {:induction false} RunSplit(s: Pool, a: seq<Step>, b: seq<Step>)
    requires IsRun(s, a + b)
    ensures IsRun(s, a) && IsRun(After(s, a), b) && After(s, a + b) == After(After(s, a), b)
    decreases |a|
  {
    if a == [] {
      assert a + b == b;
    } else {
      assert (a + b)[0] == a[0] && (a + b)[1..] == a[1..] + b;
      RunSplit(Next(s, a[0]), a[1..], b);
    }
  }

  /** How many of the steps are worker `i`'s own. */
  function OwnSteps(steps: seq<Step>, i: nat): (n: nat)
  {
    if steps == [] then 0
    else (if steps[0].Work? && steps[0].w == i then 1 else 0) + OwnSteps(steps[1..], i)
  }

  // ---------------------------------------------------------------- conservation

  function Current(pc: Pc): (ms: seq<Message>)
  {
    if pc.Invoking? && pc.job.Some? then [pc.job.value]
    else if pc.Cleaning? then [pc.done]
    else []
  }

  /** The accepted messages are the cleaned ones, then the one in progress, then the queued ones. */
  predicate Conserved(w: Worker)
  {
    w.accepted == w.cleaned + Current(w.pc) + w.queue
  }

  /** Handling follows acceptance in order and without gaps; only a drain cleans without handling. */
  predicate InOrder(w: Worker)
  {
    if w.pc.Draining? || w.pc.Exited? then w.invoked <= w.cleaned
    else if w.pc.Cleaning? then w.invoked == w.cleaned + [w.pc.done]
    else w.invoked == w.cleaned
  }

  predicate Destroying(d: Dispatcher)
  {
    !d.Idle? && !d.Signalling?
  }

  /** Shutdown is requested only while destroying, and an exited worker has nothing left. */
  predicate Closed(w: Worker, d: Dispatcher)
  {
    && (w.pc.Exited? ==> w.queue == [])
    && (w.state.ShutdownRequest? || w.pc.Draining? || w.pc.Exited? ==> Destroying(d))
  }

  ghost predicate Increasing(ms: seq<Message>)
  {
    forall j, k | 0 <= j < k < |ms| :: ms[j] < ms[k]
  }

  /** The messages a worker accepted: every number of its residue class at most once, in order. */
  ghost predicate Assigned(w: Worker, i: nat, n: nat, dispatched: nat)
    requires n > 0
  {
    && (forall j | 0 <= j < |w.accepted| :: w.accepted[j] < dispatched && w.accepted[j] % n == i)
    && Increasing(w.accepted)
  }

  ghost predicate WorkerOk(s: Pool, i: nat)
    requires i < |s.workers|
  {
    var w := s.workers[i];
    Conserved(w) && InOrder(w) && Closed(w, s.dispatcher) && Assigned(w, i, |s.workers|, s.dispatched)
  }

  ghost predicate Turn(s: Pool)
    requires |s.workers| > 0
  {
    && s.rrIndex < |s.workers|
    && (s.dispatcher.Signalling? ==>
          s.dispatched > 0 && s.dispatcher.to == s.rrIndex == (s.dispatched - 1) % |s.workers|)
    && (s.dispatcher.Idle? ==> s.rrIndex == s.dispatched % |s.workers|)
  }

  ghost predicate Invariant(s: Pool)
  {
    && |s.workers| > 0 && Turn(s)
    && forall i: nat | i < |s.workers| :: WorkerOk(s, i)
  }

  /** A worker's own step moves a message along: queued, in progress, cleaned. */
  lemma {:induction false} WorkerStepConserves(w: Worker, a: WorkerStep)
    requires Ready(w.pc, a) && Conserved(w) && InOrder(w)
    ensures Conserved(WorkerNext(w, a)) && InOrder(WorkerNext(w, a))
  {
    if w.queue != [] {
      assert w.queue == [w.queue[0]] + w.queue[1..];
      assert w.accepted == w.cleaned + Current(w.pc) + [w.queue[0]] + w.queue[1..];
    }
  }

  lemma {:induction false} WorkerStepOk(s: Pool, w: nat, a: WorkerStep)
    requires Invariant(s) && Enabled(s, Work(w, a))
    ensures Invariant(Next(s, Work(w, a)))
  {
    var s' := Next(s, Work(w, a));
    forall i: nat | i < |s'.workers|
      ensures WorkerOk(s', i)
    {
      assert WorkerOk(s, i);
      if i == w {
        WorkerStepConserves(s.workers[w], a);
      }
    }
  }

  lemma {:induction false} NextTurn(d: nat, n: nat)
    requires n > 0
    ensures (d + 1) % n == if d % n + 1 == n then 0 else d % n + 1
  {
    var q, r := d / n, d % n;
    if r + 1 == n {
      BitMask.RemainderUnique(d + 1, n, q + 1, 0);
    } else {
      BitMask.RemainderUnique(d + 1, n, q, r + 1);
    }
  }

  lemma {:induction false} OfferedOk(w: Worker, i: nat, n: nat, m: Message)
    requires n > 0 && m % n == i && Conserved(w) && InOrder(w) && Assigned(w, i, n, m)
    ensures Conserved(Offered(w, m)) && InOrder(Offered(w, m)) && Assigned(Offered(w, m), i, n, m + 1)
  {
    assert w.cleaned + Current(w.pc) + (w.queue + [m]) == w.accepted + [m];
  }

  lemma {:induction false} DispatchOk(s: Pool)
    requires Invariant(s) && Enabled(s, Dispatch)
    ensures Invariant(Next(s, Dispatch))
  {
    var s', r := Next(s, Dispatch), s.rrIndex;
    forall i: nat | i < |s'.workers|
      ensures WorkerOk(s', i)
    {
      assert WorkerOk(s, i);
      if i == r {
        OfferedOk(s.workers[r], r, |s.workers|, s.dispatched);
      }
    }
  }

  lemma {:induction false} DispatcherStepOk(s: Pool, a: Step)
    requires Invariant(s) && Enabled(s, a) && !a.Work? && !a.Dispatch?
    ensures Invariant(Next(s, a))
  {
    var s' := Next(s, a);
    if a.SendSignal? {
      NextTurn(s.dispatched - 1, |s.workers|);
    }
    forall i: nat | i < |s'.workers|
      ensures WorkerOk(s', i)
    {
      assert WorkerOk(s, i);
    }
  }

  lemma {:induction false} StepOk(s: Pool, a: Step)
    requires Invariant(s) && Enabled(s, a)
    ensures Invariant(Next(s, a))
  {
    if a.Work? {
      WorkerStepOk(s, a.w, a.a);
    } else if a.Dispatch? {
      DispatchOk(s);
    } else {
      DispatcherStepOk(s, a);
    }
  }

  lemma {:induction false} RunInvariant(s: Pool, steps: seq<Step>)
    requires Invariant(s) && IsRun(s, steps)
    ensures Invariant(After(s, steps))
    decreases |steps|
  {
    if steps != [] {
      StepOk(s, steps[0]);
      RunInvariant(Next(s, steps[0]), steps[1..]);
    }
  }

  lemma {:induction false} InitialInvariant(n: nat)
    requires n > 0
    ensures Invariant(Initial(n))
  {
    assert 0 % n == 0;
    forall i: nat | i < n
      ensures WorkerOk(Initial(n), i)
    {
    }
  }

  lemma {:induction false} CountOnce(ms: seq<Message>, m: Message)
    requires m in ms && Increasing(ms)
    ensures multiset(ms)[m] == 1
    decreases |ms|
  {
    var head, tail := ms[0], ms[1..];
    assert ms == [head] + tail;
    if head == m {
      assert m !in tail;
    } else {
      CountOnce(tail, m);
    }
  }

  /** Messages are handled in the order they were accepted. */
  lemma {:induction false} InvokedPrefix(w: Worker)
    requires Conserved(w) && InOrder(w)
    ensures w.invoked <= w.accepted
  {
  }

  /**
    * In every state of every run: the next dispatch goes to the worker whose turn its number is; each
    * worker has handled its messages in the order of dispatch, none twice, and those it accepted are the
    * cleaned ones, the one in progress and the queued ones; an exited worker has cleaned them all.
    */
  lemma {:induction false} RunOrder(n: nat, steps: seq<Step>, i: nat)
    requires i < n && IsRun(Initial(n), steps)
    ensures var s := After(Initial(n), steps);
            var w := s.workers[i];
            && (s.dispatcher.Idle? ==> s.rrIndex == s.dispatched % n)
            && (forall j | 0 <= j < |w.accepted| :: w.accepted[j] < s.dispatched && w.accepted[j] % n == i)
            && Increasing(w.accepted) && w.invoked <= w.accepted
            && w.accepted == w.cleaned + Current(w.pc) + w.queue
            && (w.pc.Exited? ==> w.cleaned == w.accepted)
  {
    var s := After(Initial(n), steps);
    InitialInvariant(n);
    RunInvariant(Initial(n), steps);
    assert WorkerOk(s, i);
    InvokedPrefix(s.workers[i]);
  }

  /** Each accepted message is in exactly one of the three places, and is handled at most once. */
  lemma {:induction false} RunExactlyOnce(n: nat, steps: seq<Step>, i: nat, m: Message)
    requires i < n && IsRun(Initial(n), steps) && m in After(Initial(n), steps).workers[i].accepted
    ensures var w := After(Initial(n), steps).workers[i];
            && multiset(w.cleaned)[m] + multiset(Current(w.pc))[m] + multiset(w.queue)[m] == 1
            && multiset(w.invoked)[m] <= 1
            && (w.pc.Exited? ==> multiset(w.cleaned)[m] == 1)
  {
    RunOrder(n, steps, i);
    var w := After(Initial(n), steps).workers[i];
    CountOnce(w.accepted, m);
    assert multiset(w.accepted) == multiset(w.cleaned) + multiset(Current(w.pc)) + multiset(w.queue);
    assert w.accepted == w.invoked + w.accepted[|w.invoked|..];
  }

  // ---------------------------------------------------------------- null jobs

  /** A worker was handed a null job. */
  predicate NullJob(w: Worker)
  {
    w.pc == Invoking(None) || w.pc.Faulted?
  }

  ghost predicate SomeNullJob(s: Pool)
  {
    exists i :: 0 <= i < |s.workers| && NullJob(s.workers[i])
  }

  /** The worker that a step gets out of its wait. */
  function WokenBy(s: Pool, a: Step): (w: Option<nat>)
    requires Enabled(s, a)
    ensures w.Some? ==> w.value < |s.workers| && s.workers[w.value].pc.Waiting?
  {
    match a
    case SendSignal => if s.workers[s.dispatcher.to].pc.Waiting? then Some(s.dispatcher.to) else None
    case Rouse => if s.workers[s.dispatcher.i].pc.Waiting? then Some(s.dispatcher.i) else None
    case Work(w, b) => if b.SpuriousWake? then Some(w) else None
    case _ => None
  }

  /** A wake-up, if the step is one, finds a message in the queue or a request to shut down. */
  predicate WakesForSomething(s: Pool, a: Step)
    requires Enabled(s, a)
  {
    var w := WokenBy(s, a);
    w.Some? ==> s.workers[w.value].queue != [] || s.workers[w.value].state.ShutdownRequest?
  }

  ghost predicate AllWakesForSomething(s: Pool, steps: seq<Step>)
    requires IsRun(s, steps)
    decreases |steps|
  {
    steps != [] ==> WakesForSomething(s, steps[0]) && AllWakesForSomething(Next(s, steps[0]), steps[1..])
  }

  /** No worker has a null job, and none has come out of its wait for nothing. */
  predicate Prepared(w: Worker)
  {
    !NullJob(w) && (w.pc.AfterWait? ==> w.queue != [] || w.state.ShutdownRequest?)
  }

  ghost predicate AllPrepared(s: Pool)
  {
    forall i | 0 <= i < |s.workers| :: Prepared(s.workers[i])
  }

  lemma {:induction false} PreparedStep(s: Pool, a: Step)
    requires Enabled(s, a) && AllPrepared(s)
    ensures AllPrepared(Next(s, a)) <==> WakesForSomething(s, a)
  {
    var s' := Next(s, a);
    if !WakesForSomething(s, a) {
      assert !Prepared(s'.workers[WokenBy(s, a).value]);
    } else {
      forall i | 0 <= i < |s'.workers|
        ensures Prepared(s'.workers[i])
      {
        assert Prepared(s.workers[i]);
      }
    }
  }

  /** At no moment of the run is a worker about to be handed a null job. */
  ghost predicate NullJobNeverNext(s: Pool, steps: seq<Step>)
    requires IsRun(s, steps)
    decreases |steps|
  {
    && (forall w: nat | Enabled(s, Work(w, Recheck)) :: !SomeNullJob(Next(s, Work(w, Recheck))))
    && (steps != [] ==> NullJobNeverNext(Next(s, steps[0]), steps[1..]))
  }

  lemma {:induction false} PreparedHasNoNullJob(s: Pool)
    requires AllPrepared(s)
    ensures !SomeNullJob(s)
    ensures forall w: nat | Enabled(s, Work(w, Recheck)) :: !SomeNullJob(Next(s, Work(w, Recheck)))
  {
    forall w: nat | Enabled(s, Work(w, Recheck))
      ensures !SomeNullJob(Next(s, Work(w, Recheck)))
    {
      PreparedStep(s, Work(w, Recheck));
      var s' := Next(s, Work(w, Recheck));
      assert forall i | 0 <= i < |s'.workers| :: Prepared(s'.workers[i]);
    }
  }

  /** A run never comes to the point of a null job if and only if each of its wake-ups was for something. */
  lemma {:induction false} NullJobAvoidedExactly(s: Pool, steps: seq<Step>)
    requires IsRun(s, steps) && AllPrepared(s)
    ensures NullJobNeverNext(s, steps) <==> AllWakesForSomething(s, steps)
    ensures AllWakesForSomething(s, steps) ==> !SomeNullJob(After(s, steps))
    decreases |steps|
  {
    PreparedHasNoNullJob(s);
    if steps != [] {
      var a, s' := steps[0], Next(s, steps[0]);
      PreparedStep(s, a);
      if WakesForSomething(s, a) {
        NullJobAvoidedExactly(s', steps[1..]);
      } else {
        var w := WokenBy(s, a).value;
        assert NullJob(Next(s', Work(w, Recheck)).workers[w]);
      }
    }
  }

  /** In every run from the start: no null job, ever, if and only if each wake-up was for something. */
  lemma {:induction false} RunAvoidsNullJobs(n: nat, steps: seq<Step>)
    requires IsRun(Initial(n), steps)
    ensures NullJobNeverNext(Initial(n), steps) <==> AllWakesForSomething(Initial(n), steps)
    ensures AllWakesForSomething(Initial(n), steps) ==> !SomeNullJob(After(Initial(n), steps))
  {
    assert AllPrepared(Initial(n));
    NullJobAvoidedExactly(Initial(n), steps);
  }

  /** A pool of one worker, as the run below sees it. */
  function Single(pc: Pc, queue: seq<Message>, accepted: seq<Message>, finished: seq<Message>, d: Dispatcher): (s: Pool)
  {
    Pool([Worker(Alive, pc, queue, accepted, finished, finished)], 0, |accepted|, d)
  }

  lemma {:induction false} SignalAfterWait()
    ensures var s := Single(Waiting, [], [0], [0], Signalling(0));
            var steps := [SendSignal, Work(0, Recheck), Work(0, Invoke)];
            IsRun(s, steps) && After(s, steps).workers[0].pc.Faulted?
  {
    var s := Single(Waiting, [], [0], [0], Signalling(0));
    var s1 := Single(AfterWait, [], [0], [0], Idle);
    var s2 := Single(Invoking(None), [], [0], [0], Idle);
    assert Next(s, SendSignal) == s1 && Next(s1, Work(0, Recheck)) == s2;
    RunCons(s2, Work(0, Invoke), []);
    RunCons(s1, Work(0, Recheck), [Work(0, Invoke)]);
    RunCons(s, SendSignal, [Work(0, Recheck), Work(0, Invoke)]);
  }

  /** A run that makes worker 0 handle a null job, without spurious wake-ups. */
  ghost predicate Faults(s: Pool, steps: seq<Step>)
  {
    && IsRun(s, steps) && |After(s, steps).workers| == 1 && After(s, steps).workers[0].pc.Faulted?
    && forall i | 0 <= i < |steps| :: steps[i] != Work(0, SpuriousWake)
  }

  lemma {:induction false} FaultsCons(s: Pool, a: Step, s': Pool, rest: seq<Step>)
    requires Enabled(s, a) && Next(s, a) == s' && Faults(s', rest) && a != Work(0, SpuriousWake)
    ensures Faults(s, [a] + rest)
  {
    RunCons(s, a, rest);
  }

  lemma {:induction false} QueueFoundEmpty() returns (steps: seq<Step>)
    ensures Faults(Single(AfterJob, [], [0], [0], Signalling(0)), steps)
  {
    var d := Signalling(0);
    var s5, s6 := Single(AfterJob, [], [0], [0], d), Single(Top, [], [0], [0], d);
    SignalAfterWait();
    steps := [SendSignal, Work(0, Recheck), Work(0, Invoke)];
    FaultsCons(s6, Work(0, TakeJob), Single(Waiting, [], [0], [0], d), steps);
    steps := [Work(0, TakeJob)] + steps;
    FaultsCons(s5, Work(0, CheckExit), s6, steps);
    steps := [Work(0, CheckExit)] + steps;
  }

  lemma {:induction false} JobHandled() returns (steps: seq<Step>)
    ensures Faults(Single(Invoking(Some(0)), [], [0], [], Signalling(0)), steps)
  {
    var d := Signalling(0);
    var s3 := Single(Invoking(Some(0)), [], [0], [], d);
    var s4 := Pool([Worker(Alive, Cleaning(0), [], [0], [0], [])], 0, 1, d);
    assert WorkerNext(s3.workers[0], Invoke) == s4.workers[0];
    steps := QueueFoundEmpty();
    FaultsCons(s4, Work(0, Clean), Single(AfterJob, [], [0], [0], d), steps);
    steps := [Work(0, Clean)] + steps;
    FaultsCons(s3, Work(0, Invoke), s4, steps);
    steps := [Work(0, Invoke)] + steps;
  }

  lemma {:induction false} JobBeforeSignal() returns (steps: seq<Step>)
    ensures Faults(Single(Top, [0], [0], [], Signalling(0)), steps)
  {
    var d := Signalling(0);
    var s2, s3 := Single(Top, [0], [0], [], d), Single(Invoking(Some(0)), [], [0], [], d);
    assert [0 as Message][1..] == [];
    assert WorkerNext(s2.workers[0], TakeJob) == s3.workers[0];
    steps := JobHandled();
    FaultsCons(s2, Work(0, TakeJob), s3, steps);
    steps := [Work(0, TakeJob)] + steps;
  }

  /** Without a single spurious wake-up: the signal of a dispatch reaches the worker after it took the job. */
  lemma {:induction false} LateSignalFaults() returns (steps: seq<Step>)
    ensures IsRun(Initial(1), steps) && After(Initial(1), steps).workers[0].pc.Faulted?
    ensures forall i | 0 <= i < |steps| :: steps[i] != Work(0, SpuriousWake)
  {
    var s1, s2 := Single(Top, [], [], [], Idle), Single(Top, [0], [0], [], Signalling(0));
    assert Next(Initial(1), Work(0, Start)) == s1;
    assert Offered(s1.workers[0], 0) == s2.workers[0];
    assert Next(s1, Dispatch) == s2;
    steps := JobBeforeSignal();
    RunCons(s1, Dispatch, steps);
    steps := [Dispatch] + steps;
    RunCons(Initial(1), Work(0, Start), steps);
    steps := [Work(0, Start)] + steps;
  }
}
