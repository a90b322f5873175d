/**
  * The reader/writer lock built from a mutex, a condition variable and a reader count, as a
  * state machine whose steps are the single mutex, condition and counter operations of its
  * four functions. Any number of threads run them in any interleaving.
  */
module RwLock {
  import opened Options

  /** A thread's identity. */
  type Thread = nat

  /** Where a thread is; every state after `Idle` names the operation it does next. */
  datatype Pc =
    | Idle           // outside the lock functions, possibly holding read locks
    | Increment      // r_lock, owns the mutex
    | LeaveRLock     // r_lock, owns the mutex, has counted itself
    | Decrement      // r_unlock, owns the mutex
    | SignalLast     // r_unlock, owns the mutex, was the last reader
    | LeaveRUnlock   // r_unlock, owns the mutex
    | Test           // w_lock, owns the mutex, at the head of the loop
    | Asleep         // w_lock, waiting on the condition
    | Woken          // w_lock, woken and taking the mutex back
    | Writing        // returned from w_lock, owns the mutex
    | SignalNext     // w_unlock, has released the mutex

  /** `holds` has one element for each read lock that a thread has obtained and not begun to release. */
  datatype State = State(mutex: Option<Thread>, readers: int, pcs: map<Thread, Pc>, holds: multiset<Thread>)

  predicate OwnsMutex(pc: Pc)
  {
    pc.Increment? || pc.LeaveRLock? || pc.Decrement? || pc.SignalLast? || pc.LeaveRUnlock? || pc.Test? || pc.Writing?
  }

  ghost function Sleepers(s: State): (ts: set<Thread>)
  {
    set t | t in s.pcs && s.pcs[t].Asleep?
  }

  datatype Step =
    | RLock(t: Thread) | Count(t: Thread) | RLockReturns(t: Thread)
    | RUnlock(t: Thread) | Uncount(t: Thread) | RUnlockReturns(t: Thread)
    | WLock(t: Thread) | TestReaders(t: Thread) | Reacquire(t: Thread)
    | WUnlock(t: Thread)
    | Signal(t: Thread, woken: set<Thread>)
    | SpuriousWake(t: Thread)

  /** A signal wakes at least one sleeper if there is any. */
  ghost predicate Wakes(s: State, woken: set<Thread>)
  {
    woken <= Sleepers(s) && (Sleepers(s) != {} ==> woken != {})
  }

  ghost predicate Enabled(s: State, a: Step)
  {
    && a.t in s.pcs
    && match a
       case RLock(t) => s.pcs[t].Idle? && s.mutex.None?
       case Count(t) => s.pcs[t].Increment?
       case RLockReturns(t) => s.pcs[t].LeaveRLock?
       case RUnlock(t) => s.pcs[t].Idle? && s.mutex.None? && t in s.holds
       case Uncount(t) => s.pcs[t].Decrement?
       case RUnlockReturns(t) => s.pcs[t].LeaveRUnlock?
       case WLock(t) => s.pcs[t].Idle? && s.mutex.None?
       case TestReaders(t) => s.pcs[t].Test?
       case Reacquire(t) => s.pcs[t].Woken? && s.mutex.None?
       case WUnlock(t) => s.pcs[t].Writing?
       case Signal(t, woken) => (s.pcs[t].SignalLast? || s.pcs[t].SignalNext?) && Wakes(s, woken)
       case SpuriousWake(t) => s.pcs[t].Asleep?
  }

  ghost function Next(s: State, a: Step): (s': State)
    requires Enabled(s, a)
  {
    match a
    case RLock(t) => s.(mutex := Some(t), pcs := s.pcs[t := Increment])
    case Count(t) => s.(readers := s.readers + 1, pcs := s.pcs[t := LeaveRLock])
    case RLockReturns(t) => s.(mutex := None, pcs := s.pcs[t := Idle], holds := s.holds + multiset{t})
    case RUnlock(t) => s.(mutex := Some(t), pcs := s.pcs[t := Decrement], holds := s.holds - multiset{t})
    case Uncount(t) =>
      s.(readers := s.readers - 1, pcs := s.pcs[t := if s.readers - 1 == 0 then SignalLast else LeaveRUnlock])
    case RUnlockReturns(t) => s.(mutex := None, pcs := s.pcs[t := Idle])
    case WLock(t) => s.(mutex := Some(t), pcs := s.pcs[t := Test])
    case TestReaders(t) =>
      if s.readers != 0 then s.(mutex := None, pcs := s.pcs[t := Asleep]) else s.(pcs := s.pcs[t := Writing])
    case Reacquire(t) => s.(mutex := Some(t), pcs := s.pcs[t := Test])
    case WUnlock(t) => s.(mutex := None, pcs := s.pcs[t := SignalNext])
    case Signal(t, woken) =>
      var after := if s.pcs[t].SignalLast? then LeaveRUnlock else Idle;
      s.(pcs := map u | u in s.pcs :: if u == t then after else if u in woken then Woken else s.pcs[u])
    case SpuriousWake(t) => s.(pcs := s.pcs[t := Woken])
  }

  ghost function Start(threads: set<Thread>): (s: State)
  {
    State(None, 0, map t | t in threads :: Idle, multiset{})
  }

  ghost predicate IsRun(s: State, steps: seq<Step>)
    decreases |steps|
  {
    steps == [] || (Enabled(s, steps[0]) && IsRun(Next(s, steps[0]), steps[1..]))
  }

  ghost function After(s: State, steps: seq<Step>): (s': State)
    requires IsRun(s, steps)
    decreases |steps|
  {
    if steps == [] then s else After(Next(s, steps[0]), steps[1..])
  }

  // ---------------------------------------------------------------- the invariant

  /** Readers counted in the lock that do not have, or no longer have, a read lock. */
  ghost function InTransit(s: State): (n: nat)
  {
    if s.mutex.Some? && s.mutex.value in s.pcs && (s.pcs[s.mutex.value].LeaveRLock? || s.pcs[s.mutex.value].Decrement?)
    then 1 else 0
  }

  /** Threads that will make sure a sleeper is woken or will get the lock themselves. */
  predicate Responsible(pc: Pc)
  {
    pc.Woken? || pc.Test? || pc.Writing? || pc.SignalNext? || pc.SignalLast?
  }

  ghost predicate SomeResponsible(s: State)
  {
    exists t :: t in s.pcs && Responsible(s.pcs[t])
  }

  /** The mutex is owned by exactly the thread whose position says so. */
  ghost predicate Owned(s: State)
  {
    && (forall t | t in s.pcs :: OwnsMutex(s.pcs[t]) <==> s.mutex == Some(t))
    && (s.mutex.Some? ==> s.mutex.value in s.pcs)
  }

  ghost predicate Counted(s: State)
  {
    && s.readers == |s.holds| + InTransit(s)
    && (forall t | t in s.pcs && (s.pcs[t].Writing? || s.pcs[t].SignalLast?) :: s.readers == 0)
  }

  ghost predicate Watched(s: State)
  {
    Sleepers(s) != {} && s.readers == 0 ==> SomeResponsible(s)
  }

  ghost predicate Known(s: State)
  {
    forall t | t in s.holds :: t in s.pcs
  }

  ghost predicate Invariant(s: State)
  {
    Owned(s) && Counted(s) && Watched(s) && Known(s)
  }

  lemma {:induction false} StartInvariant(threads: set<Thread>)
    ensures Invariant(Start(threads))
  {
  }

  /** A witness that the step leaves for every sleeper there is. */
  lemma {:induction false} ResponsibleAfter(s: State, a: Step)
    requires Invariant(s) && Enabled(s, a)
    ensures Watched(Next(s, a))
  {
    var s' := Next(s, a);
    if Sleepers(s') != {} && s'.readers == 0 {
      var u :| u in Sleepers(s');
      match a {
        case Signal(t, woken) =>
          assert u in Sleepers(s);
          var w :| w in woken;
          assert s'.pcs[w].Woken?;
        case Uncount(t) => assert s'.pcs[t].SignalLast?;
        case WLock(t) => assert s'.pcs[t].Test?;
        case Reacquire(t) => assert s'.pcs[t].Test?;
        case TestReaders(t) => assert s'.pcs[t].Writing?;
        case WUnlock(t) => assert s'.pcs[t].SignalNext?;
        case SpuriousWake(t) => assert s'.pcs[t].Woken?;
        case Count(_) =>
        case RLockReturns(_) =>
        case RUnlock(_) =>
        case _ =>
          assert u in Sleepers(s);
          assert SomeResponsible(s);
          var w :| w in s.pcs && Responsible(s.pcs[w]);
          assert s'.pcs[w] == s.pcs[w];
      }
    }
  }

  lemma {:induction false} StepInvariant(s: State, a: Step)
    requires Invariant(s) && Enabled(s, a)
    ensures Invariant(Next(s, a))
  {
    OwnedAfter(s, a);
    CountedAfter(s, a);
    ResponsibleAfter(s, a);
  }

  lemma {:induction false} OwnedAfter(s: State, a: Step)
    requires Owned(s) && Enabled(s, a)
    ensures Owned(Next(s, a))
  {
  }

  lemma {:induction false} CountedAfter(s: State, a: Step)
    requires Owned(s) && Counted(s) && Enabled(s, a)
    ensures Counted(Next(s, a))
  {
    OwnedAfter(s, a);
    if a.RUnlock? {
      assert |s.holds - multiset{a.t}| == |s.holds| - 1;
    }
  }

  lemma {:induction false} RunInvariant(s: State, steps: seq<Step>)
    requires Invariant(s) && IsRun(s, steps)
    ensures Invariant(After(s, steps))
    decreases |steps|
  {
    if steps != [] {
      StepInvariant(s, steps[0]);
      RunInvariant(Next(s, steps[0]), steps[1..]);
    }
  }

  /** In every state of every run: the count is right, writers exclude everyone, and no wake-up is lost. */
  lemma {:induction false} RunSafety(threads: set<Thread>, steps: seq<Step>)
    requires IsRun(Start(threads), steps)
    ensures var s := After(Start(threads), steps);
            // the count is that of the read locks out, whenever nobody is updating it
            && (s.mutex.None? ==> s.readers == |s.holds|)
            // a writer inside excludes every reader and every other writer
            && (forall t | t in s.pcs && s.pcs[t].Writing? ::
                  s.holds == multiset{} && forall u | u in s.pcs && s.pcs[u].Writing? :: u == t)
            // the assertion in r_unlock holds
            && (forall t | t in s.pcs && s.pcs[t].Decrement? :: s.readers > 0)
            // a writer sleeps on a free lock only while another is woken or about to signal
            && (s.mutex.None? && s.holds == multiset{} && Sleepers(s) != {} ==>
                  exists t :: t in s.pcs && (s.pcs[t].Woken? || s.pcs[t].SignalNext?))
  {
    StartInvariant(threads);
    RunInvariant(Start(threads), steps);
    var s := After(Start(threads), steps);
    forall t | t in s.pcs && s.pcs[t].Writing?
      ensures s.holds == multiset{}
    {
      assert |s.holds| == 0;
    }
    if s.mutex.None? && s.holds == multiset{} && Sleepers(s) != {} {
      var t :| t in s.pcs && Responsible(s.pcs[t]);
      assert !OwnsMutex(s.pcs[t]);
    }
  }

  /** Steps inside the lock functions, other than a spurious wake-up. */
  predicate Internal(a: Step)
  {
    !a.RLock? && !a.RUnlock? && !a.WLock? && !a.WUnlock? && !a.SpuriousWake?
  }

  /** With no read lock out and no writer inside, a thread in the middle of a lock function never leaves it stuck. */
  lemma {:induction false} NoDeadlock(s: State, t: Thread) returns (a: Step)
    requires Invariant(s) && t in s.pcs && !s.pcs[t].Idle?
    requires s.holds == multiset{} && forall u | u in s.pcs :: !s.pcs[u].Writing?
    ensures Enabled(s, a) && Internal(a)
  {
    var u := t;
    if s.mutex.Some? {
      u := s.mutex.value;
    } else if s.pcs[t].Asleep? {
      assert t in Sleepers(s);
      u :| u in s.pcs && Responsible(s.pcs[u]);
    }
    assert OwnsMutex(s.pcs[u]) <==> s.mutex == Some(u);
    a := match s.pcs[u]
      case Increment => Count(u)
      case LeaveRLock => RLockReturns(u)
      case Decrement => Uncount(u)
      case LeaveRUnlock => RUnlockReturns(u)
      case Test => TestReaders(u)
      case Woken => Reacquire(u)
      case _ => Signal(u, Sleepers(s));
  }
}
