/**
  * Destroying the worker pool: the dispatcher requests the shutdown of a worker, signals it and joins
  * it. The request is made without the worker's lock, so it can be overwritten and the signal missed.
  */
module WorkerShutdown {
  import opened Options
  import opened WorkerPool

  /** A worker that gets to its exit by itself. */
  predicate CanExit(w: Worker)
  {
    || w.pc.Draining? || w.pc.Exited?
    || (w.state.ShutdownRequest? &&
        (w.pc.AfterWait? || (w.pc.Invoking? && w.pc.job.Some?) || w.pc.Cleaning? || w.pc.AfterJob?
         || (w.pc.Top? && w.queue != [])))
  }

  /** Only a spurious wake-up can bring another worker to its exit. */
  lemma {:induction false} StuckStays(w: Worker, a: WorkerStep)
    requires Ready(w.pc, a) && !CanExit(w) && !a.SpuriousWake?
    ensures !CanExit(WorkerNext(w, a))
  {
  }

  ghost predicate WithoutSpuriousWake(steps: seq<Step>, i: nat)
  {
    forall k | 0 <= k < |steps| :: steps[k] != Work(i, SpuriousWake)
  }

  /** While a worker that cannot exit is being joined, the dispatcher stays where it is. */
  lemma {:induction false} JoinHangs(s: Pool, steps: seq<Step>, i: nat)
    requires IsRun(s, steps) && WithoutSpuriousWake(steps, i)
    requires s.dispatcher == Joining(i) && i < |s.workers| && !CanExit(s.workers[i])
    ensures After(s, steps).dispatcher == Joining(i) && !CanExit(After(s, steps).workers[i])
    decreases |steps|
  {
    if steps != [] {
      var a := steps[0];
      if a.Work? && a.w == i {
        StuckStays(s.workers[i], a.a);
      }
      assert forall k | 0 <= k < |steps[1..]| :: steps[1..][k] == steps[k + 1];
      JoinHangs(Next(s, a), steps[1..], i);
    }
  }

  /** The next step of a worker on its way out. */
  function ExitStep(w: Worker): (a: WorkerStep)
    requires CanExit(w) && !w.pc.Exited?
    ensures Ready(w.pc, a) && !a.SpuriousWake?
  {
    match w.pc
    case AfterWait => Recheck
    case Invoking(_) => Invoke
    case Cleaning(_) => Clean
    case AfterJob => CheckExit
    case Top => TakeJob
    case _ => Drain
  }

  /** How far a worker is from its exit. */
  function Distance(w: Worker): (n: nat)
    requires CanExit(w)
  {
    match w.pc
    case Exited => 0
    case Draining => |w.queue| + 1
    case AfterWait => |w.queue| + 2
    case AfterJob => |w.queue| + 2
    case Cleaning(_) => |w.queue| + 3
    case Invoking(_) => |w.queue| + 4
    case _ => |w.queue| + 5
  }

  lemma {:induction false} ExitStepNears(w: Worker)
    requires CanExit(w) && !w.pc.Exited?
    ensures var v := WorkerNext(w, ExitStep(w));
            CanExit(v) && Distance(v) < Distance(w)
  {
  }

  // ---------------------------------------------------------------- one join

  /** What follows the join of worker `i`. */
  function AfterJoin(i: nat, n: nat): (d: Dispatcher)
  {
    if i + 1 == n then Done else Requesting(i + 1)
  }

  ghost predicate NoSpuriousWakes(steps: seq<Step>)
  {
    forall k | 0 <= k < |steps| :: !(steps[k].Work? && steps[k].a.SpuriousWake?)
  }

  ghost predicate SameOthers(s: Pool, t: Pool, i: nat)
  {
    |s.workers| == |t.workers| && forall j | 0 <= j < |s.workers| && j != i :: s.workers[j] == t.workers[j]
  }

  /** A worker that can exit does so in finitely many of its own steps, and is then joined. */
  lemma {:induction false} JoinReached(s: Pool, i: nat) returns (steps: seq<Step>)
    requires s.dispatcher == Joining(i) && i < |s.workers| && CanExit(s.workers[i])
    ensures IsRun(s, steps) && NoSpuriousWakes(steps)
    ensures After(s, steps).dispatcher == AfterJoin(i, |s.workers|) && SameOthers(s, After(s, steps), i)
    decreases Distance(s.workers[i])
  {
    if s.workers[i].pc.Exited? {
      RunCons(s, Join, []);
      steps := [Join] + [];
    } else {
      var a := Work(i, ExitStep(s.workers[i]));
      ExitStepNears(s.workers[i]);
      var rest := JoinReached(Next(s, a), i);
      RunCons(s, a, rest);
      steps := [a] + rest;
    }
  }

  /** The join of a worker can be completed, other than by a spurious wake-up, if and only if it can exit. */
  lemma {:induction false} JoinExactly(s: Pool, i: nat)
    requires s.dispatcher == Joining(i) && i < |s.workers|
    ensures (exists steps :: IsRun(s, steps) && WithoutSpuriousWake(steps, i)
                             && After(s, steps).dispatcher != Joining(i))
            <==> CanExit(s.workers[i])
  {
    if CanExit(s.workers[i]) {
      var steps := JoinReached(s, i);
      assert WithoutSpuriousWake(steps, i);
    } else {
      forall steps | IsRun(s, steps) && WithoutSpuriousWake(steps, i)
        ensures After(s, steps).dispatcher == Joining(i)
      {
        JoinHangs(s, steps, i);
      }
    }
  }

  lemma {:induction false} ExitedStays(s: Pool, steps: seq<Step>, i: nat)
    requires IsRun(s, steps) && i < |s.workers| && s.workers[i].pc.Exited?
    ensures OwnSteps(steps, i) == 0 && After(s, steps).workers[i].pc.Exited?
    decreases |steps|
  {
    if steps != [] {
      ExitedStays(Next(s, steps[0]), steps[1..], i);
    }
  }

  /**
    * Whatever else runs in between: a worker that can exit when it is joined takes no more steps of its
    * own than its distance from the exit, and has exited once it has taken that many.
    */
  lemma {:induction false} ExitsWithin(s: Pool, steps: seq<Step>, i: nat)
    requires IsRun(s, steps) && s.dispatcher == Joining(i) && i < |s.workers| && CanExit(s.workers[i])
    ensures OwnSteps(steps, i) <= Distance(s.workers[i])
    ensures OwnSteps(steps, i) == Distance(s.workers[i]) ==> After(s, steps).workers[i].pc.Exited?
    decreases |steps|
  {
    if s.workers[i].pc.Exited? {
      ExitedStays(s, steps, i);
    } else if steps != [] {
      var a := steps[0];
      if a.Work? && a.w == i {
        OnlyStep(s.workers[i], a.a);
        ExitStepNears(s.workers[i]);
      }
      ExitsWithin(Next(s, a), steps[1..], i);
    }
  }

  lemma {:induction false} OnlyStep(w: Worker, a: WorkerStep)
    requires CanExit(w) && !w.pc.Exited? && Ready(w.pc, a)
    ensures a == ExitStep(w)
  {
  }

  // ---------------------------------------------------------------- request and signal

  /**
    * What the signal achieves, whatever the worker did since the request: it gets to its exit exactly when
    * it drains or has exited, or when the request still stands and it has no null job, has started, and is
    * not about to find its queue empty.
    */
  lemma {:induction false} RousedExactly(s: Pool)
    requires Enabled(s, Rouse)
    ensures var w := s.workers[s.dispatcher.i];
            CanExit(Next(s, Rouse).workers[s.dispatcher.i]) <==>
            || w.pc.Draining? || w.pc.Exited?
            || (w.state.ShutdownRequest? && !NullJob(w) && !w.pc.Begin? && !(w.pc.Top? && w.queue == []))
  {
  }

  /** One worker without jobs: it tests its queue before the request, and waits after the signal. */
  lemma {:induction false} DestroyHangs()
    ensures var steps := [Work(0, Start), Destroy, RequestShutdown, Rouse, Work(0, TakeJob)];
            && IsRun(Initial(1), steps)
            && After(Initial(1), steps).dispatcher == Joining(0)
            && After(Initial(1), steps).workers[0].pc.Waiting? && !CanExit(After(Initial(1), steps).workers[0])
  {
    var alive := Worker(Alive, Top, [], [], [], []);
    assert Next(Initial(1), Work(0, Start)) == Pool([alive], 0, 0, Idle);
    IdleWorkerHangs(alive);
    RunCons(Initial(1), Work(0, Start), [Destroy, RequestShutdown, Rouse, Work(0, TakeJob)]);
  }

  lemma {:induction false} IdleWorkerHangs(w: Worker)
    requires w.pc.Top? && w.queue == []
    ensures var s := Pool([w], 0, 0, Idle);
            var steps := [Destroy, RequestShutdown, Rouse, Work(0, TakeJob)];
            && IsRun(s, steps) && After(s, steps).dispatcher == Joining(0)
            && After(s, steps).workers == [w.(state := ShutdownRequest, pc := Waiting)]
  {
    var s, asked := Pool([w], 0, 0, Idle), w.(state := ShutdownRequest);
    var s1, s2, s3 := s.(dispatcher := Requesting(0)), Pool([asked], 0, 0, Rousing(0)), Pool([asked], 0, 0, Joining(0));
    assert Next(s1, RequestShutdown) == s2 && Next(s2, Rouse) == s3;
    RunCons(s3, Work(0, TakeJob), []);
    RunCons(s2, Rouse, [Work(0, TakeJob)]);
    RunCons(s1, RequestShutdown, [Rouse, Work(0, TakeJob)]);
    RunCons(s, Destroy, [RequestShutdown, Rouse, Work(0, TakeJob)]);
  }

  /** One worker that has not started yet overwrites the request. */
  lemma {:induction false} RequestOverwritten()
    ensures var steps := [Destroy, RequestShutdown, Work(0, Start), Rouse];
            && IsRun(Initial(1), steps)
            && After(Initial(1), steps).dispatcher == Joining(0)
            && After(Initial(1), steps).workers[0].state.Alive? && !CanExit(After(Initial(1), steps).workers[0])
  {
    var w := Worker(Startup, Begin, [], [], [], []);
    var s, asked, alive := Initial(1), w.(state := ShutdownRequest), w.(state := Alive, pc := Top);
    assert s == Pool([w], 0, 0, Idle);
    var s1, s2, s3 := s.(dispatcher := Requesting(0)), Pool([asked], 0, 0, Rousing(0)), Pool([alive], 0, 0, Rousing(0));
    assert Next(s1, RequestShutdown) == s2 && Next(s2, Work(0, Start)) == s3;
    assert Next(s3, Rouse) == Pool([alive], 0, 0, Joining(0));
    RunCons(s3, Rouse, []);
    RunCons(s2, Work(0, Start), [Rouse]);
    RunCons(s1, RequestShutdown, [Work(0, Start), Rouse]);
    RunCons(s, Destroy, [RequestShutdown, Work(0, Start), Rouse]);
  }

  // ---------------------------------------------------------------- the whole destruction

  /** The first worker that has not been joined. */
  function Unjoined(d: Dispatcher, n: nat): (i: nat)
  {
    match d
    case Idle => 0
    case Signalling(_) => 0
    case Requesting(i) => i
    case Rousing(i) => i
    case Joining(i) => i
    case Done => n
  }

  /** A worker with a null job is never joined, spurious wake-ups or not. */
  lemma {:induction false} NullJobBlocks(s: Pool, steps: seq<Step>, j: nat)
    requires IsRun(s, steps) && j < |s.workers| && NullJob(s.workers[j])
    requires Unjoined(s.dispatcher, |s.workers|) <= j
    ensures NullJob(After(s, steps).workers[j]) && Unjoined(After(s, steps).dispatcher, |s.workers|) <= j
    decreases |steps|
  {
    if steps != [] {
      NullJobBlocks(Next(s, steps[0]), steps[1..], j);
    }
  }

  /** Brings worker `i` to where the request and the signal reach it. */
  lemma {:induction false} MadeReachable(s: Pool, i: nat) returns (steps: seq<Step>)
    requires s.dispatcher == Requesting(i) && i < |s.workers| && !NullJob(s.workers[i])
    ensures IsRun(s, steps) && NoSpuriousWakes(steps) && After(s, steps).dispatcher == Requesting(i)
    ensures SameOthers(s, After(s, steps), i) && !NullJob(After(s, steps).workers[i])
    ensures var w := After(s, steps).workers[i];
            !w.pc.Begin? && !(w.pc.Top? && w.queue == [])
    decreases if s.workers[i].pc.Begin? then 1 else 0
  {
    var w := s.workers[i];
    steps := [];
    if w.pc.Begin? {
      var a := Work(i, Start);
      var rest := MadeReachable(Next(s, a), i);
      RunCons(s, a, rest);
      steps := [a] + rest;
    } else if w.pc.Top? && w.queue == [] {
      var a := Work(i, TakeJob);
      RunCons(s, a, []);
      steps := [a] + [];
    }
  }

  /** One worker asked, signalled and joined. */
  lemma {:induction false} WorkerDestroyed(s: Pool, i: nat) returns (steps: seq<Step>)
    requires s.dispatcher == Requesting(i) && i < |s.workers| && !NullJob(s.workers[i])
    ensures IsRun(s, steps) && NoSpuriousWakes(steps)
    ensures After(s, steps).dispatcher == AfterJoin(i, |s.workers|) && SameOthers(s, After(s, steps), i)
  {
    var ready := MadeReachable(s, i);
    var s1 := After(s, ready);
    var s2 := Next(s1, RequestShutdown);
    RousedExactly(s2);
    var s3 := Next(s2, Rouse);
    var out := JoinReached(s3, i);
    RunCons(s2, Rouse, out);
    RunCons(s1, RequestShutdown, [Rouse] + out);
    var rest := [RequestShutdown] + ([Rouse] + out);
    RunConcat(s, ready, rest);
    steps := ready + rest;
  }

  lemma {:induction false} AllDestroyed(s: Pool, i: nat) returns (steps: seq<Step>)
    requires s.dispatcher == Requesting(i) && i < |s.workers|
    requires forall j | i <= j < |s.workers| :: !NullJob(s.workers[j])
    ensures IsRun(s, steps) && NoSpuriousWakes(steps) && After(s, steps).dispatcher.Done?
    decreases |s.workers| - i
  {
    steps := WorkerDestroyed(s, i);
    if i + 1 < |s.workers| {
      var t := After(s, steps);
      var rest := AllDestroyed(t, i + 1);
      RunConcat(s, steps, rest);
      steps := steps + rest;
    }
  }

  /** The destruction of the pool can be completed if and only if no worker has a null job. */
  lemma {:induction false} DestroyExactly(s: Pool)
    requires s.dispatcher.Idle?
    ensures (exists steps :: IsRun(s, steps) && NoSpuriousWakes(steps) && After(s, steps).dispatcher.Done?)
            <==> !SomeNullJob(s)
  {
    if SomeNullJob(s) {
      var j :| 0 <= j < |s.workers| && NullJob(s.workers[j]);
      forall steps | IsRun(s, steps)
        ensures !After(s, steps).dispatcher.Done?
      {
        NullJobBlocks(s, steps, j);
      }
    } else {
      var t := Next(s, Destroy);
      var rest := [];
      if s.workers != [] {
        rest := AllDestroyed(t, 0);
      }
      RunCons(s, Destroy, rest);
      assert NoSpuriousWakes([Destroy] + rest);
    }
  }
}
