/**
  * What the four functions of the reader/writer lock achieve: readers enter beside readers, a writer
  * enters an empty lock, and a waiting writer gets in unless a reader waits to write as well.
  */
module RwLockProgress {
  import opened Options
  import opened RwLock

  lemma {:induction false} RunCons(s: State, a: Step, rest: seq<Step>)
    requires Enabled(s, a) && IsRun(Next(s, a), rest)
    ensures IsRun(s, [a] + rest) && After(s, [a] + rest) == After(Next(s, a), rest)
  {
    assert ([a] + rest)[1..] == rest;
  }

  lemma {:induction false} RunConcat(s: State, a: seq<Step>, b: seq<Step>)
    requires IsRun(s, a) && IsRun(After(s, a), b)
    ensures IsRun(s, a + b) && After(s, a + b) == After(After(s, a), b)
    decreases |a|
  {
    if a == [] {
      assert a + b == b;
    } else {
      assert (a + b)[0] == a[0] && (a + b)[1..] == a[1..] + b;
      RunConcat(Next(s, a[0]), a[1..], b);
    }
  }

  // ---------------------------------------------------------------- one call at a time

  /** Between calls of the lock functions: nobody owns the mutex, and thread `t` is outside. */
  ghost predicate Outside(s: State, t: Thread)
  {
    Invariant(s) && s.mutex.None? && t in s.pcs && s.pcs[t].Idle?
  }

  /** A reader gets in at once, however many readers are inside. */
  lemma {:induction false} ReaderEnters(s: State, t: Thread)
    requires Outside(s, t)
    ensures var steps := [RLock(t), Count(t), RLockReturns(t)];
            IsRun(s, steps) &&
            After(s, steps) == s.(readers := s.readers + 1, holds := s.holds + multiset{t})
  {
    var s1 := Next(s, RLock(t));
    var s2 := Next(s1, Count(t));
    assert Next(s2, RLockReturns(t)).pcs == s.pcs;
    RunCons(s2, RLockReturns(t), []);
    RunCons(s1, Count(t), [RLockReturns(t)]);
    RunCons(s, RLock(t), [Count(t), RLockReturns(t)]);
  }

  /** A writer gets in at once exactly when no read lock is out, and else sleeps without the mutex. */
  lemma {:induction false} WriterEnters(s: State, t: Thread)
    requires Outside(s, t)
    ensures var steps := [WLock(t), TestReaders(t)];
            IsRun(s, steps) &&
            After(s, steps) == if s.holds == multiset{} then s.(mutex := Some(t), pcs := s.pcs[t := Writing])
                               else s.(pcs := s.pcs[t := Asleep])
  {
    var s1 := Next(s, WLock(t));
    assert s.readers == |s.holds|;
    RunCons(s1, TestReaders(t), []);
    RunCons(s, WLock(t), [TestReaders(t)]);
  }

  /** The threads with the sleepers in `woken` got up. */
  ghost function Roused(pcs: map<Thread, Pc>, woken: set<Thread>): (r: map<Thread, Pc>)
  {
    map t | t in pcs :: if t in woken then Woken else pcs[t]
  }

  /** A reader that leaves others inside wakes nobody. */
  lemma {:induction false} ReaderLeavesOthers(s: State, t: Thread)
    requires Outside(s, t) && t in s.holds && |s.holds| > 1
    ensures var steps := [RUnlock(t), Uncount(t), RUnlockReturns(t)];
            IsRun(s, steps) &&
            After(s, steps) == s.(readers := s.readers - 1, holds := s.holds - multiset{t})
  {
    var s1 := Next(s, RUnlock(t));
    var s2 := Next(s1, Uncount(t));
    assert Next(s2, RUnlockReturns(t)).pcs == s.pcs;
    RunCons(s2, RUnlockReturns(t), []);
    RunCons(s1, Uncount(t), [RUnlockReturns(t)]);
    RunCons(s, RUnlock(t), [Uncount(t), RUnlockReturns(t)]);
  }

  /** The last reader signals: whichever sleepers the signal reaches are up, and there is one if there is any. */
  lemma {:induction false} LastReaderLeaves(s: State, t: Thread, woken: set<Thread>)
    requires Outside(s, t) && s.holds == multiset{t} && Wakes(s, woken)
    ensures var steps := [RUnlock(t), Uncount(t), Signal(t, woken), RUnlockReturns(t)];
            IsRun(s, steps) &&
            After(s, steps) == s.(readers := 0, holds := multiset{}, pcs := Roused(s.pcs, woken))
  {
    var s1 := Next(s, RUnlock(t));
    var s2 := Next(s1, Uncount(t));
    assert |s.holds| == 1 && s2.pcs[t].SignalLast?;
    assert Sleepers(s2) == Sleepers(s);
    var s3 := Next(s2, Signal(t, woken));
    assert t !in woken;
    assert Next(s3, RUnlockReturns(t)).pcs == Roused(s.pcs, woken);
    RunCons(s3, RUnlockReturns(t), []);
    RunCons(s2, Signal(t, woken), [RUnlockReturns(t)]);
    RunCons(s1, Uncount(t), [Signal(t, woken), RUnlockReturns(t)]);
    RunCons(s, RUnlock(t), [Uncount(t), Signal(t, woken), RUnlockReturns(t)]);
  }

  /** A writer gives the mutex back before it signals. */
  lemma {:induction false} WriterLeaves(s: State, t: Thread, woken: set<Thread>)
    requires Invariant(s) && t in s.pcs && s.pcs[t].Writing? && Wakes(s, woken)
    ensures var steps := [WUnlock(t), Signal(t, woken)];
            IsRun(s, steps) &&
            After(s, steps) == s.(mutex := None, pcs := Roused(s.pcs, woken)[t := Idle])
  {
    var s1 := Next(s, WUnlock(t));
    assert Sleepers(s1) == Sleepers(s) && t !in woken;
    assert Next(s1, Signal(t, woken)).pcs == Roused(s.pcs, woken)[t := Idle];
    RunCons(s1, Signal(t, woken), []);
    RunCons(s, WUnlock(t), [Signal(t, woken)]);
  }

  // ---------------------------------------------------------------- waiting writers

  predicate InWLock(pc: Pc)
  {
    pc.Test? || pc.Asleep? || pc.Woken?
  }

  /** A thread that has a read lock waits for the write lock. */
  ghost predicate Upgrading(s: State)
  {
    exists u :: u in s.holds && u in s.pcs && InWLock(s.pcs[u])
  }

  lemma {:induction false} UpgradeStays(s: State, a: Step)
    requires Invariant(s) && Enabled(s, a) && Upgrading(s)
    ensures Upgrading(Next(s, a))
  {
    var u :| u in s.holds && u in s.pcs && InWLock(s.pcs[u]);
    assert |s.holds| > 0;
    assert u in Next(s, a).holds && InWLock(Next(s, a).pcs[u]);
  }

  /** Then nobody ever writes again. */
  lemma {:induction false} UpgradeBlocks(s: State, steps: seq<Step>, w: Thread)
    requires Invariant(s) && IsRun(s, steps) && Upgrading(s)
    ensures w in After(s, steps).pcs ==> !After(s, steps).pcs[w].Writing?
    decreases |steps|
  {
    if steps == [] {
      assert |s.holds| > 0;
    } else {
      StepInvariant(s, steps[0]);
      UpgradeStays(s, steps[0]);
      UpgradeBlocks(Next(s, steps[0]), steps[1..], w);
    }
  }

  /** A state from which writer `w` is still to get in, and can. */
  ghost predicate Hopeful(s: State, w: Thread)
  {
    Invariant(s) && !Upgrading(s) && w in s.pcs && InWLock(s.pcs[w])
  }

  ghost predicate Writes(s: State, w: Thread)
  {
    w in s.pcs && s.pcs[w].Writing?
  }

  /** A run at the end of which `w` has got in. */
  ghost predicate GetsIn(s: State, steps: seq<Step>, w: Thread)
  {
    IsRun(s, steps) && Writes(After(s, steps), w)
  }

  /** The next step of the thread that owns the mutex. */
  ghost function OwnerStep(s: State): (a: Step)
    requires Invariant(s) && s.mutex.Some?
    ensures Enabled(s, a)
  {
    var o := s.mutex.value;
    match s.pcs[o]
    case Increment => Count(o)
    case LeaveRLock => RLockReturns(o)
    case Decrement => Uncount(o)
    case SignalLast => Signal(o, Sleepers(s))
    case LeaveRUnlock => RUnlockReturns(o)
    case Test => TestReaders(o)
    case _ => WUnlock(o)
  }

  function OwnerDistance(pc: Pc): (n: nat)
  {
    match pc
    case Decrement => 3
    case Increment => 2
    case SignalLast => 2
    case Test => 2
    case _ => 1
  }

  /** Whether the owner of the mutex is about to have a read lock. */
  ghost function Entering(s: State): (n: nat)
  {
    if s.mutex.Some? && s.mutex.value in s.pcs
       && (s.pcs[s.mutex.value].Increment? || s.pcs[s.mutex.value].LeaveRLock?)
    then 1 else 0
  }

  lemma {:induction false} OwnerNears(s: State)
    requires Invariant(s) && s.mutex.Some?
    ensures var t := Next(s, OwnerStep(s));
            && |t.holds| + Entering(t) <= |s.holds| + Entering(s)
            && (t.mutex.Some? ==> t.mutex == s.mutex && t.mutex.value in t.pcs)
            && (t.mutex.Some? ==> OwnerDistance(t.pcs[t.mutex.value]) < OwnerDistance(s.pcs[s.mutex.value]))
  {
  }

  lemma {:induction false} OwnerDoesNotUpgrade(s: State)
    requires Invariant(s) && s.mutex.Some? && !Upgrading(s)
    ensures !Upgrading(Next(s, OwnerStep(s)))
  {
    var t := Next(s, OwnerStep(s));
    forall u | u in t.holds && u in t.pcs
      ensures !InWLock(t.pcs[u])
    {
      if u in s.holds {
        assert !InWLock(s.pcs[u]);
      }
    }
  }

  lemma {:induction false} OwnerMovesOn(s: State, w: Thread)
    requires Hopeful(s, w) && s.mutex.Some?
    ensures Writes(Next(s, OwnerStep(s)), w) || Hopeful(Next(s, OwnerStep(s)), w)
  {
    StepInvariant(s, OwnerStep(s));
    OwnerDoesNotUpgrade(s);
  }

  /** The thread that owns the mutex comes to give it back, unless it is the writer and has got in. */
  lemma {:induction false} MutexFreed(s: State, w: Thread) returns (steps: seq<Step>)
    requires Hopeful(s, w)
    ensures IsRun(s, steps)
    ensures var t := After(s, steps);
            Writes(t, w) || (Hopeful(t, w) && t.mutex.None? && |t.holds| <= |s.holds| + Entering(s))
    decreases if s.mutex.Some? then OwnerDistance(s.pcs[s.mutex.value]) else 0
  {
    steps := [];
    if s.mutex.Some? {
      var a := OwnerStep(s);
      OwnerNears(s);
      OwnerMovesOn(s, w);
      var rest := [];
      if !Writes(Next(s, a), w) {
        rest := MutexFreed(Next(s, a), w);
      }
      RunCons(s, a, rest);
      steps := [a] + rest;
    }
  }

  /** A thread with a read lock, while the mutex is free, is outside or about to signal, and can be outside. */
  lemma {:induction false} HolderOutside(s: State, w: Thread, u: Thread) returns (steps: seq<Step>)
    requires Hopeful(s, w) && s.mutex.None? && u in s.holds
    ensures IsRun(s, steps)
    ensures var t := After(s, steps);
            Hopeful(t, w) && t.mutex.None? && t.holds == s.holds && Outside(t, u)
  {
    steps := [];
    assert !InWLock(s.pcs[u]) && !OwnsMutex(s.pcs[u]);
    if s.pcs[u].SignalNext? {
      var a := Signal(u, Sleepers(s));
      var t := Next(s, a);
      StepInvariant(s, a);
      assert forall v | v in t.holds :: !InWLock(s.pcs[v]) && !InWLock(t.pcs[v]);
      RunCons(s, a, []);
      steps := [a] + [];
    }
  }

  /** A reader outside begins to release its lock. */
  lemma {:induction false} HolderReleases(s: State, w: Thread, u: Thread)
    requires Hopeful(s, w) && Outside(s, u) && u in s.holds
    ensures var t := Next(s, RUnlock(u));
            Hopeful(t, w) && Entering(t) == 0 && |t.holds| == |s.holds| - 1
  {
    var t := Next(s, RUnlock(u));
    StepInvariant(s, RUnlock(u));
    assert |s.holds - multiset{u}| == |s.holds| - 1;
    forall v | v in t.holds && v in t.pcs
      ensures !InWLock(t.pcs[v])
    {
      assert v in s.holds && !InWLock(s.pcs[v]);
    }
  }

  /** All read locks can be given back. */
  lemma {:induction false} HoldsReleased(s: State, w: Thread) returns (steps: seq<Step>)
    requires Hopeful(s, w) && s.mutex.None?
    ensures IsRun(s, steps)
    ensures var t := After(s, steps);
            Writes(t, w) || (Hopeful(t, w) && t.mutex.None? && t.holds == multiset{})
    decreases |s.holds|
  {
    steps := [];
    if s.holds != multiset{} {
      var u :| u in s.holds;
      var out := HolderOutside(s, w, u);
      var s1 := After(s, out);
      HolderReleases(s1, w, u);
      var s2 := Next(s1, RUnlock(u));
      var freed := MutexFreed(s2, w);
      var s3 := After(s2, freed);
      var rest := [];
      if !Writes(s3, w) {
        rest := HoldsReleased(s3, w);
      }
      RunConcat(s2, freed, rest);
      RunCons(s1, RUnlock(u), freed + rest);
      steps := out + ([RUnlock(u)] + (freed + rest));
      RunConcat(s, out, [RUnlock(u)] + (freed + rest));
    }
  }

  /** A writer that is up takes the mutex back and tests again: it gets in or goes back to sleep. */
  lemma {:induction false} AwakeTests(s: State, w: Thread)
    requires Invariant(s) && s.mutex.None? && w in s.pcs && s.pcs[w].Woken?
    ensures var steps := [Reacquire(w), TestReaders(w)];
            IsRun(s, steps) &&
            After(s, steps) == if s.holds == multiset{} then s.(mutex := Some(w), pcs := s.pcs[w := Writing])
                               else s.(pcs := s.pcs[w := Asleep])
  {
    var s1 := Next(s, Reacquire(w));
    assert s1.readers == |s.holds|;
    RunCons(s1, TestReaders(w), []);
    RunCons(s, Reacquire(w), [TestReaders(w)]);
  }

  /** Woken for nothing while readers are inside, a writer sleeps again and nothing has changed. */
  lemma {:induction false} SpuriousWakeHarmless(s: State, w: Thread)
    requires Invariant(s) && s.mutex.None? && w in s.pcs && s.pcs[w].Asleep? && s.holds != multiset{}
    ensures var steps := [SpuriousWake(w), Reacquire(w), TestReaders(w)];
            IsRun(s, steps) && After(s, steps) == s
  {
    var s1 := Next(s, SpuriousWake(w));
    StepInvariant(s, SpuriousWake(w));
    AwakeTests(s1, w);
    assert s1.pcs[w := Asleep] == s.pcs;
    RunCons(s, SpuriousWake(w), [Reacquire(w), TestReaders(w)]);
  }

  /** A signal to all gets a sleeping writer up. */
  lemma {:induction false} SignalRouses(s: State, w: Thread, v: Thread)
    requires Hopeful(s, w) && s.mutex.None? && s.holds == multiset{} && s.pcs[w].Asleep?
    requires v in s.pcs && s.pcs[v].SignalNext?
    ensures var t := Next(s, Signal(v, Sleepers(s)));
            Hopeful(t, w) && t.mutex.None? && t.holds == multiset{} && t.pcs[w].Woken?
  {
    StepInvariant(s, Signal(v, Sleepers(s)));
    assert w in Sleepers(s);
  }

  /** With no read lock out, a sleeping writer is woken by whoever is responsible for it. */
  lemma {:induction false} SleeperRoused(s: State, w: Thread) returns (steps: seq<Step>)
    requires Hopeful(s, w) && s.mutex.None? && s.holds == multiset{} && s.pcs[w].Asleep?
    ensures IsRun(s, steps)
    ensures var t := After(s, steps);
            Hopeful(t, w) && t.mutex.None? && t.holds == multiset{} && t.pcs[w].Woken?
  {
    assert w in Sleepers(s) && SomeResponsible(s);
    var v :| v in s.pcs && Responsible(s.pcs[v]);
    assert !OwnsMutex(s.pcs[v]);
    var first, s1 := [], s;
    if s.pcs[v].Woken? {
      first, s1 := PassedOn(s, w, v);
    }
    var a := Signal(v, Sleepers(s1));
    SignalRouses(s1, w, v);
    RunCons(s1, a, []);
    steps := first + ([a] + []);
    RunConcat(s, first, [a] + []);
  }

  /** Another writer that is up gets in and out again, and is about to signal. */
  lemma {:induction false} PassedOn(s: State, w: Thread, v: Thread) returns (steps: seq<Step>, t: State)
    requires Hopeful(s, w) && s.mutex.None? && s.holds == multiset{} && s.pcs[w].Asleep?
    requires v in s.pcs && s.pcs[v].Woken?
    ensures IsRun(s, steps) && t == After(s, steps)
    ensures Hopeful(t, w) && t.mutex.None? && t.holds == multiset{} && t.pcs[w].Asleep?
    ensures v in t.pcs && t.pcs[v].SignalNext?
  {
    assert Hopeful(s, v);
    AwakeTests(s, v);
    var enter := [Reacquire(v), TestReaders(v)];
    var s1 := After(s, enter);
    RunInvariant(s, enter);
    t := Next(s1, WUnlock(v));
    StepInvariant(s1, WUnlock(v));
    RunCons(s1, WUnlock(v), []);
    steps := enter + ([WUnlock(v)] + []);
    RunConcat(s, enter, [WUnlock(v)] + []);
  }

  lemma {:induction false} WriterFinishes(s: State, w: Thread) returns (steps: seq<Step>)
    requires Hopeful(s, w) && s.mutex.None? && s.holds == multiset{}
    ensures GetsIn(s, steps, w)
  {
    var first := [];
    assert OwnsMutex(s.pcs[w]) <==> s.mutex == Some(w);
    if s.pcs[w].Asleep? {
      first := SleeperRoused(s, w);
    }
    AwakeTests(After(s, first), w);
    var last := [Reacquire(w), TestReaders(w)];
    RunConcat(s, first, last);
    steps := first + last;
  }

  lemma {:induction false} WriterArrives(s: State, w: Thread) returns (steps: seq<Step>)
    requires Hopeful(s, w)
    ensures GetsIn(s, steps, w)
  {
    steps := MutexFreed(s, w);
    var s1 := After(s, steps);
    if !Writes(s1, w) {
      var released := HoldsReleased(s1, w);
      var s2 := After(s1, released);
      var rest := [];
      if !Writes(s2, w) {
        rest := WriterFinishes(s2, w);
      }
      RunConcat(s1, released, rest);
      RunConcat(s, steps, released + rest);
      steps := steps + (released + rest);
    }
  }

  /** A waiting writer can get in if and only if no thread waits to write while it has a read lock. */
  lemma {:induction false} WriterGetsInExactly(s: State, w: Thread)
    requires Invariant(s) && w in s.pcs && InWLock(s.pcs[w])
    ensures (exists steps :: GetsIn(s, steps, w)) <==> !Upgrading(s)
  {
    if Upgrading(s) {
      forall steps | IsRun(s, steps)
        ensures !GetsIn(s, steps, w)
      {
        UpgradeBlocks(s, steps, w);
      }
    } else {
      var steps := WriterArrives(s, w);
    }
  }

  /** One thread that asks for the write lock with a read lock of its own waits forever. */
  lemma {:induction false} UpgradeHangs(t: Thread)
    ensures var steps := [RLock(t), Count(t), RLockReturns(t), WLock(t), TestReaders(t)];
            && IsRun(Start({t}), steps) && Upgrading(After(Start({t}), steps))
            && After(Start({t}), steps).pcs == map[t := Asleep]
  {
    var s := Start({t});
    var first, last := [RLock(t), Count(t), RLockReturns(t)], [WLock(t), TestReaders(t)];
    StartInvariant({t});
    ReaderEnters(s, t);
    var s1 := After(s, first);
    RunInvariant(s, first);
    WriterEnters(s1, t);
    RunConcat(s, first, last);
    assert first + last == [RLock(t), Count(t), RLockReturns(t), WLock(t), TestReaders(t)];
    assert t in s1.holds;
  }
}
