/**
  * The registry of stream buffer pools: one pool for each size, created when first asked for, with
  * buffers given back to the pool whose address range they lie in. Addresses are numbers; zero is null.
  */
module StreamPools {
  import opened BitMask
  import opened Collections
  import opened Options

  type Address = nat

  const ALIGNMENT: nat := 256
  const DEFAULT_MESSAGE_SIZE: nat := 2048

  // ---------------------------------------------------------------- sizes

  /** `x & ~mask`: what masking keeps and what it clears add up to the number. */
  function AndNot(x: nat, mask: nat): (r: int)
  {
    x - And(x, mask)
  }

  /** The size asked for, or else a default. */
  function ChosenSize(requested: nat, fallback: nat): (size: nat)
  {
    if requested != 0 then requested else if fallback != 0 then fallback else DEFAULT_MESSAGE_SIZE
  }

  /** `(size + 255) & ~255`. */
  function NormalizeSize(requested: nat, fallback: nat): (n: int)
  {
    AndNot(ChosenSize(requested, fallback) + (ALIGNMENT - 1), ALIGNMENT - 1)
  }

  lemma {:induction false} LowByte(x: nat)
    ensures And(x, 255) == x % 256
  {
    assert Pow2(8) == 256 by {
      assert Pow2(4) == 16;
    }
    MaskIsRemainder(x, 8);
  }

  /** A number less its remainder by 256. */
  lemma {:induction false} RoundedUp(size: nat, n: int)
    requires n == (size + 255) - (size + 255) % 256
    ensures n % 256 == 0 && size <= n < size + 256
  {
    RemainderUnique(n, 256, (size + 255) / 256, 0);
  }

  lemma {:induction false} SizeRounded(size: nat)
    ensures var n := AndNot(size + 255, 255);
            n % 256 == 0 && size <= n < size + 256
  {
    LowByte(size + 255);
    RoundedUp(size, AndNot(size + 255, 255));
  }

  /** The least multiple of 256 that is not below the request, or else the fallback, or else 2048 itself. */
  lemma {:induction false} NormalizedSize(requested: nat, fallback: nat)
    ensures var n := NormalizeSize(requested, fallback);
            && n % 256 == 0
            && (requested != 0 ==> requested <= n < requested + 256)
            && (requested == 0 && fallback != 0 ==> fallback <= n < fallback + 256)
            && (requested == 0 && fallback == 0 ==> n == 2048)
  {
    if requested != 0 {
      SizeRounded(requested);
    } else if fallback != 0 {
      SizeRounded(fallback);
    } else {
      SizeRounded(2048);
    }
  }

  // ---------------------------------------------------------------- pools

  /** A pool of `bufferCount` buffers laid out from address `storage`; `free` is its stack, last on top. */
  datatype Pool = Pool(bufferSize: nat, bufferCount: nat, storage: Address, free: seq<Address>)

  /** The address of the `i`-th buffer. */
  function BufferAt(p: Pool, i: nat): (a: Address)
  {
    p.storage + i * p.bufferSize
  }

  function End(p: Pool): (a: Address)
  {
    p.storage + p.bufferSize * p.bufferCount
  }

  predicate Owns(p: Pool, a: Address)
  {
    p.storage <= a < End(p)
  }

  ghost predicate IsBuffer(p: Pool, a: Address)
  {
    exists i: nat :: i < p.bufferCount && a == BufferAt(p, i)
  }

  ghost predicate NoDuplicates(s: seq<Address>)
  {
    forall i, j | 0 <= i < j < |s| :: s[i] != s[j]
  }

  predicate Shaped(p: Pool)
  {
    p.bufferSize > 0 && p.bufferCount > 0 && p.storage > 0
  }

  /** Each buffer is either on the free stack, once, or outstanding. */
  ghost predicate Partitioned(p: Pool, out: set<Address>)
  {
    && Shaped(p) && NoDuplicates(p.free)
    && (forall k | 0 <= k < |p.free| :: IsBuffer(p, p.free[k]))
    && (forall a: Address | IsBuffer(p, a) :: a in p.free <==> a !in out)
  }

  lemma {:induction false} BufferBounds(p: Pool, i: nat)
    requires i < p.bufferCount
    ensures p.storage <= BufferAt(p, i) && BufferAt(p, i) + p.bufferSize <= End(p)
  {
    assert (i + 1) * p.bufferSize <= p.bufferCount * p.bufferSize;
  }

  /** A buffer lies within the pool's storage. */
  lemma {:induction false} BufferOwned(p: Pool, a: Address)
    requires Shaped(p) && IsBuffer(p, a)
    ensures Owns(p, a) && a + p.bufferSize <= End(p)
  {
    var i: nat :| i < p.bufferCount && a == BufferAt(p, i);
    BufferBounds(p, i);
  }

  /** Different buffers of a pool do not overlap. */
  lemma {:induction false} BuffersApart(p: Pool, a: Address, b: Address)
    requires IsBuffer(p, a) && IsBuffer(p, b) && a < b
    ensures a + p.bufferSize <= b
  {
    var i: nat :| i < p.bufferCount && a == BufferAt(p, i);
    var j: nat :| j < p.bufferCount && b == BufferAt(p, j);
    Multiples(i, j, p.bufferSize);
  }

  lemma {:induction false} Multiples(i: nat, j: nat, size: nat)
    requires i * size < j * size
    ensures i * size + size <= j * size
  {
    if j <= i {
      MulMonotone(j, i, size);
    } else {
      MulMonotone(i + 1, j, size);
    }
  }

  lemma {:induction false} MulMonotone(i: nat, j: nat, size: nat)
    requires i <= j
    ensures i * size <= j * size
  {
  }

  ghost function FirstBuffers(p: Pool, n: nat): (bs: set<Address>)
    ensures |bs| <= n
    ensures forall i: nat | i < n :: BufferAt(p, i) in bs
  {
    if n == 0 then {} else FirstBuffers(p, n - 1) + {BufferAt(p, n - 1)}
  }

  lemma {:induction false} DistinctCard(s: seq<Address>)
    requires NoDuplicates(s)
    ensures |set a: Address | a in s| == |s|
    decreases |s|
  {
    if s != [] {
      var t, last := s[..|s| - 1], s[|s| - 1];
      DistinctCard(t);
      OneMoreElement(t, last, s);
      assert last !in t;
    }
  }

  lemma {:induction false} OneMoreElement(t: seq<Address>, last: Address, s: seq<Address>)
    requires s == t + [last]
    ensures (set a: Address | a in s) == (set a: Address | a in t) + {last}
  {
  }

  /** The free stack holds at most one entry per buffer, so a buffer that is not free leaves room for its return. */
  lemma {:induction false} FreeFits(p: Pool, out: set<Address>)
    requires Partitioned(p, out)
    ensures |p.free| <= p.bufferCount
    ensures forall a: Address | IsBuffer(p, a) && a in out :: |p.free| < p.bufferCount
  {
    var all := FirstBuffers(p, p.bufferCount);
    var f := set a: Address | a in p.free;
    DistinctCard(p.free);
    forall a: Address | IsBuffer(p, a)
      ensures a in all
    {
      var i: nat :| i < p.bufferCount && a == BufferAt(p, i);
    }
    SubsetCard(f, all);
    forall a: Address | IsBuffer(p, a) && a in out
      ensures |p.free| < p.bufferCount
    {
      SubsetCard(f + {a}, all);
    }
  }

  /** A new pool, all its buffers pushed in order. */
  function Created(size: nat, count: nat, storage: Address): (p: Pool)
  {
    Pool(size, count, storage, seq(count, i requires 0 <= i < count => storage + i * size))
  }

  lemma {:induction false} CreatedPartitioned(size: nat, count: nat, storage: Address, out: set<Address>)
    requires size > 0 && count > 0 && storage > 0
    requires forall a | a in out :: !Owns(Created(size, count, storage), a)
    ensures Partitioned(Created(size, count, storage), out)
  {
    var p := Created(size, count, storage);
    forall i, j | 0 <= i < j < count
      ensures p.free[i] != p.free[j]
    {
      MulMonotone(i + 1, j, size);
    }
    forall k | 0 <= k < |p.free|
      ensures IsBuffer(p, p.free[k])
    {
      assert p.free[k] == BufferAt(p, k);
    }
    forall a: Address | IsBuffer(p, a)
      ensures a in p.free && a !in out
    {
      var i: nat :| i < p.bufferCount && a == BufferAt(p, i);
      assert p.free[i] == a;
      BufferOwned(p, a);
    }
  }

  /** Buffers depend only on the layout. */
  lemma {:induction false} SameBuffers(p: Pool, q: Pool, a: Address)
    requires q == p.(free := q.free)
    ensures IsBuffer(p, a) <==> IsBuffer(q, a)
  {
    forall i: nat
      ensures BufferAt(p, i) == BufferAt(q, i)
    {
    }
  }

  lemma {:induction false} PopPartitioned(p: Pool, out: set<Address>)
    requires Partitioned(p, out) && p.free != []
    ensures var a := p.free[|p.free| - 1];
            IsBuffer(p, a) && a !in out && Partitioned(p.(free := p.free[..|p.free| - 1]), out + {a})
  {
    var n := |p.free| - 1;
    var a, q := p.free[n], p.(free := p.free[..n]);
    assert p.free == q.free + [a] && a !in q.free;
    forall b: Address
      ensures IsBuffer(p, b) <==> IsBuffer(q, b)
    {
      SameBuffers(p, q, b);
    }
  }

  lemma {:induction false} PushPartitioned(p: Pool, out: set<Address>, a: Address)
    requires Partitioned(p, out) && IsBuffer(p, a) && a in out
    ensures Partitioned(p.(free := p.free + [a]), out - {a})
  {
    var q := p.(free := p.free + [a]);
    assert a !in p.free;
    forall b: Address
      ensures IsBuffer(p, b) <==> IsBuffer(q, b)
    {
      SameBuffers(p, q, b);
    }
  }

  // ---------------------------------------------------------------- the registry

  predicate Apart(p: Pool, q: Pool)
  {
    End(p) <= q.storage || End(q) <= p.storage
  }

  ghost predicate InSomePool(entries: seq<Pool>, a: Address)
  {
    exists e :: 0 <= e < |entries| && IsBuffer(entries[e], a)
  }

  /** Every pool is partitioned, no two overlap or serve the same size, and every outstanding buffer is some pool's. */
  ghost predicate Registered(entries: seq<Pool>, out: set<Address>)
  {
    && (forall e | 0 <= e < |entries| :: Partitioned(entries[e], out))
    && (forall e, f | 0 <= e < f < |entries| :: Apart(entries[e], entries[f]))
    && (forall e, f | 0 <= e < f < |entries| :: entries[e].bufferSize != entries[f].bufferSize)
    && (forall a | a in out :: InSomePool(entries, a))
  }

  /** Another pool's partition does not see a buffer come or go. */
  lemma {:induction false} OthersPartitioned(p: Pool, q: Pool, out: set<Address>, out': set<Address>, a: Address)
    requires Partitioned(q, out) && Shaped(p) && Apart(p, q) && IsBuffer(p, a)
    requires out - {a} == out' - {a}
    ensures Partitioned(q, out')
  {
    BufferOwned(p, a);
    forall b: Address | IsBuffer(q, b)
      ensures b in out <==> b in out'
    {
      BufferOwned(q, b);
      assert b in out - {a} <==> b in out' - {a};
    }
  }

  lemma {:induction false} UpdateRegistered(entries: seq<Pool>, out: set<Address>, out': set<Address>,
                                            e: nat, p: Pool, a: Address)
    requires Registered(entries, out) && e < |entries| && p == entries[e].(free := p.free)
    requires Partitioned(p, out') && IsBuffer(entries[e], a) && out - {a} == out' - {a}
    ensures Registered(entries[e := p], out')
  {
    var es := entries[e := p];
    forall f | 0 <= f < |es|
      ensures Partitioned(es[f], out')
    {
      if f != e {
        assert Apart(entries[e], entries[f]) || Apart(entries[f], entries[e]);
        OthersPartitioned(entries[e], entries[f], out, out', a);
      }
    }
    forall b | b in out'
      ensures InSomePool(es, b)
    {
      if b == a {
        SameBuffers(entries[e], p, b);
        assert IsBuffer(es[e], b);
      } else {
        assert b in out - {a} by {
          assert b in out' - {a};
        }
        assert InSomePool(entries, b);
        var f :| 0 <= f < |entries| && IsBuffer(entries[f], b);
        SameBuffers(entries[e], p, b);
        assert IsBuffer(es[f], b);
      }
    }
  }

  lemma {:induction false} AppendRegistered(entries: seq<Pool>, out: set<Address>, p: Pool)
    requires Registered(entries, out)
    requires p == Created(p.bufferSize, p.bufferCount, p.storage) && Shaped(p)
    requires forall e | 0 <= e < |entries| :: Apart(entries[e], p) && entries[e].bufferSize != p.bufferSize
    ensures Registered(entries + [p], out)
  {
    var es := entries + [p];
    forall a | a in out
      ensures !Owns(p, a) && InSomePool(es, a)
    {
      assert InSomePool(entries, a);
      var e :| 0 <= e < |entries| && IsBuffer(entries[e], a);
      BufferOwned(entries[e], a);
      assert es[e] == entries[e];
    }
    CreatedPartitioned(p.bufferSize, p.bufferCount, p.storage, out);
  }

  /** The pool in whose range an outstanding buffer lies is the one it was taken from. */
  lemma {:induction false} OwnerIsSource(entries: seq<Pool>, out: set<Address>, i: nat, a: Address)
    requires Registered(entries, out) && i < |entries| && a in out && Owns(entries[i], a)
    ensures IsBuffer(entries[i], a)
  {
    assert InSomePool(entries, a);
    var e :| 0 <= e < |entries| && IsBuffer(entries[e], a);
    BufferOwned(entries[e], a);
    assert e < i ==> Apart(entries[e], entries[i]);
    assert i < e ==> Apart(entries[i], entries[e]);
  }

  /** No two outstanding buffers overlap, whichever pools they are from. */
  lemma {:induction false} OutstandingDisjoint(entries: seq<Pool>, out: set<Address>, e: nat, f: nat,
                                               a: Address, b: Address)
    requires Registered(entries, out) && e < |entries| && f < |entries|
    requires a in out && b in out && a != b && IsBuffer(entries[e], a) && IsBuffer(entries[f], b)
    ensures a + entries[e].bufferSize <= b || b + entries[f].bufferSize <= a
  {
    BufferOwned(entries[e], a);
    BufferOwned(entries[f], b);
    if e == f {
      if a < b {
        BuffersApart(entries[e], a, b);
      } else {
        BuffersApart(entries[e], b, a);
      }
    } else {
      assert Apart(entries[e], entries[f]) || Apart(entries[f], entries[e]);
    }
  }

  // ---------------------------------------------------------------- acquiring and releasing

  /** The pools and the buffers that are out. */
  datatype State = State(entries: seq<Pool>, out: set<Address>)

  ghost predicate Valid(s: State)
  {
    Registered(s.entries, s.out)
  }

  /** The first pool of a size, from position `i` on. */
  function OfSize(entries: seq<Pool>, size: nat, i: nat): (e: Option<nat>)
    requires i <= |entries|
    ensures e.Some? ==> i <= e.value < |entries| && entries[e.value].bufferSize == size
    ensures e.None? ==> forall f | i <= f < |entries| :: entries[f].bufferSize != size
    decreases |entries| - i
  {
    if i == |entries| then None
    else if entries[i].bufferSize == size then Some(i)
    else OfSize(entries, size, i + 1)
  }

  /** The first pool in whose range an address lies, from position `i` on; null lies in none. */
  function OwnerOf(entries: seq<Pool>, a: Address, i: nat): (e: Option<nat>)
    requires i <= |entries|
    ensures e.Some? ==> i <= e.value < |entries| && Owns(entries[e.value], a)
    ensures e.None? ==> forall f | i <= f < |entries| :: !Owns(entries[f], a)
    decreases |entries| - i
  {
    if i == |entries| then None
    else if Owns(entries[i], a) then Some(i)
    else OwnerOf(entries, a, i + 1)
  }

  /** What an allocation of `n` bytes at `storage` promises: not null, and clear of every pool. */
  predicate Unused(entries: seq<Pool>, storage: Address, n: nat)
  {
    storage > 0 && forall e | 0 <= e < |entries| :: End(entries[e]) <= storage || storage + n <= entries[e].storage
  }

  /** The pools with one of the size among them, created over `storage` if it can be, and which one it is. */
  function WithPool(entries: seq<Pool>, size: nat, count: nat, storage: Address): (r: (seq<Pool>, Option<nat>))
    ensures r.1.Some? ==> r.1.value < |r.0| && r.0[r.1.value].bufferSize == size
  {
    var e := OfSize(entries, size, 0);
    if e.Some? then (entries, e)
    else if size == 0 || count == 0 then (entries, None)
    else (entries + [Created(size, count, storage)], Some(|entries|))
  }

  function AcquireStep(s: State, size: nat, count: nat, storage: Address): (r: (State, Address))
  {
    var (entries, e) := WithPool(s.entries, size, count, storage);
    if e.None? then (State(entries, s.out), 0) else
      var p := entries[e.value];
      if p.free == [] then (State(entries, s.out), 0) else
        var n := |p.free| - 1;
        (State(entries[e.value := p.(free := p.free[..n])], s.out + {p.free[n]}), p.free[n])
  }

  function ReleaseStep(s: State, buffer: Address): (r: (State, bool))
  {
    var e := if buffer == 0 then None else OwnerOf(s.entries, buffer, 0);
    if e.None? then (s, false) else
      var p := s.entries[e.value];
      (State(s.entries[e.value := p.(free := p.free + [buffer])], s.out - {buffer}), true)
  }

  lemma {:induction false} WithPoolRegistered(s: State, size: nat, count: nat, storage: Address)
    requires Valid(s) && Unused(s.entries, storage, size * count)
    ensures Registered(WithPool(s.entries, size, count, storage).0, s.out)
  {
    if OfSize(s.entries, size, 0).None? && size > 0 && count > 0 {
      AppendRegistered(s.entries, s.out, Created(size, count, storage));
    }
  }

  /** Taking the top free buffer of a pool. */
  lemma {:induction false} TakeKeeps(entries: seq<Pool>, out: set<Address>, e: nat)
    requires Registered(entries, out) && e < |entries| && entries[e].free != []
    ensures var p := entries[e];
            var n := |p.free| - 1;
            var taken := entries[e := p.(free := p.free[..n])];
            && Registered(taken, out + {p.free[n]}) && IsBuffer(taken[e], p.free[n])
            && p.free[n] != 0 && p.free[n] !in out
  {
    var p := entries[e];
    var n := |p.free| - 1;
    var a, q := p.free[n], p.(free := p.free[..n]);
    PopPartitioned(p, out);
    BufferOwned(p, a);
    UpdateRegistered(entries, out, out + {a}, e, q, a);
    SameBuffers(p, q, a);
  }

  ghost predicate Supplies(p: Pool, size: nat, a: Address)
  {
    p.bufferSize == size && IsBuffer(p, a)
  }

  ghost predicate Exhausted(p: Pool, size: nat, out: set<Address>)
  {
    p.bufferSize == size && forall b: Address | IsBuffer(p, b) :: b in out
  }

  /** An acquired buffer was not out and is the right pool's; null means that all of that pool's are out. */
  lemma {:induction false} AcquireKeeps(s: State, size: nat, count: nat, storage: Address)
    requires Valid(s) && Unused(s.entries, storage, size * count)
    ensures var (t, a) := AcquireStep(s, size, count, storage);
            && Valid(t)
            && (a == 0 ==> t.out == s.out)
            && (a != 0 ==> a !in s.out && t.out == s.out + {a})
            && (a != 0 ==> exists e :: 0 <= e < |t.entries| && Supplies(t.entries[e], size, a))
            && (a == 0 && size > 0 && count > 0 ==>
                  exists e :: 0 <= e < |t.entries| && Exhausted(t.entries[e], size, t.out))
  {
    WithPoolRegistered(s, size, count, storage);
    var (entries, e) := WithPool(s.entries, size, count, storage);
    var (t, a) := AcquireStep(s, size, count, storage);
    if e.Some? {
      assert Partitioned(entries[e.value], s.out);
      if entries[e.value].free != [] {
        TakeKeeps(entries, s.out, e.value);
        assert Supplies(t.entries[e.value], size, a);
      } else {
        assert Exhausted(t.entries[e.value], size, t.out);
      }
    }
  }

  /** An outstanding buffer goes back to its own pool, which has room for it on its stack. */
  lemma {:induction false} ReleaseKeeps(s: State, a: Address)
    requires Valid(s) && a in s.out
    ensures var (t, released) := ReleaseStep(s, a);
            && released && Valid(t) && t.out == s.out - {a}
            && exists e :: 0 <= e < |s.entries| && IsBuffer(s.entries[e], a)
                           && |s.entries[e].free| < s.entries[e].bufferCount
                           && t.entries == s.entries[e := s.entries[e].(free := s.entries[e].free + [a])]
  {
    assert InSomePool(s.entries, a);
    var f :| 0 <= f < |s.entries| && IsBuffer(s.entries[f], a);
    BufferOwned(s.entries[f], a);
    var i := OwnerOf(s.entries, a, 0).value;
    var p := s.entries[i];
    OwnerIsSource(s.entries, s.out, i, a);
    FreeFits(p, s.out);
    PushPartitioned(p, s.out, a);
    UpdateRegistered(s.entries, s.out, s.out - {a}, i, p.(free := p.free + [a]), a);
  }

  /** An address in the range of none of the pools. */
  predicate InNoPool(entries: seq<Pool>, a: Address)
  {
    forall e | 0 <= e < |entries| :: !Owns(entries[e], a)
  }

  lemma {:induction false} RefusedExactly(s: State, a: Address)
    requires Valid(s)
    ensures ReleaseStep(s, a).1 <==> !InNoPool(s.entries, a)
  {
    if a == 0 {
      forall e | 0 <= e < |s.entries|
        ensures !Owns(s.entries[e], a)
      {
        assert Partitioned(s.entries[e], s.out);
      }
    }
  }

  /** A second release, or that of an address inside a pool that is no buffer of it, spoils its pool. */
  lemma {:induction false} ReleaseSpoils(s: State, a: Address)
    requires Valid(s) && a !in s.out && ReleaseStep(s, a).1
    ensures !Valid(ReleaseStep(s, a).0)
  {
    var t := ReleaseStep(s, a).0;
    var i := OwnerOf(s.entries, a, 0).value;
    var p, q := s.entries[i], t.entries[i];
    assert Partitioned(p, s.out);
    SameBuffers(p, q, a);
    assert q.free[|p.free|] == a;
    if IsBuffer(p, a) {
      var k :| 0 <= k < |p.free| && p.free[k] == a;
      assert q.free[k] == a && !NoDuplicates(q.free);
    }
    assert !Partitioned(q, t.out);
  }

  /** A release keeps the pools in order if and only if the address is out, or lies in no pool. */
  lemma {:induction false} ReleaseExactly(s: State, a: Address)
    requires Valid(s)
    ensures Valid(ReleaseStep(s, a).0) <==> a in s.out || InNoPool(s.entries, a)
  {
    RefusedExactly(s, a);
    if a in s.out {
      ReleaseKeeps(s, a);
    } else if ReleaseStep(s, a).1 {
      ReleaseSpoils(s, a);
    }
  }

  lemma {:induction false} TakeAlone(p: Pool, out: set<Address>, count: nat, storage: Address)
    requires p.free != []
    ensures var n := |p.free| - 1;
            AcquireStep(State([p], out), p.bufferSize, count, storage) ==
            (State([p.(free := p.free[..n])], out + {p.free[n]}), p.free[n])
  {
    assert OfSize([p], p.bufferSize, 0) == Some(0);
    assert [p][0 := p.(free := p.free[..|p.free| - 1])] == [p.(free := p.free[..|p.free| - 1])];
  }

  lemma {:induction false} GiveAlone(p: Pool, out: set<Address>, a: Address)
    requires a != 0 && Owns(p, a)
    ensures ReleaseStep(State([p], out), a) == (State([p.(free := p.free + [a])], out - {a}), true)
  {
    assert OwnerOf([p], a, 0) == Some(0);
    assert [p][0 := p.(free := p.free + [a])] == [p.(free := p.free + [a])];
  }

  /** A buffer released twice is handed out twice, if the stack has room for it: two owners share it. */
  lemma {:induction false} SecondReleaseShares(p: Pool, out: set<Address>, a: Address)
    requires a != 0 && Owns(p, a) && |p.free| + 1 < p.bufferCount
    ensures var s := State([p], out);
            var (s1, r1) := ReleaseStep(s, a);
            var (s2, r2) := ReleaseStep(s1, a);
            var (s3, b) := AcquireStep(s2, p.bufferSize, p.bufferCount, p.storage);
            var (_, c) := AcquireStep(s3, p.bufferSize, p.bufferCount, p.storage);
            r1 && HasRoom(s, a) && r2 && HasRoom(s1, a) && b == c == a
  {
    var once := p.(free := p.free + [a]);
    var twice := p.(free := once.free + [a]);
    GiveAlone(p, out, a);
    GiveAlone(once, out - {a}, a);
    TakeAlone(twice, out - {a}, p.bufferCount, p.storage);
    assert twice.free[..|twice.free| - 1] == once.free;
    assert twice.(free := once.free) == once;
    TakeAlone(once, out - {a} + {a}, p.bufferCount, p.storage);
  }

  /** A new pool of two one-byte buffers at addresses 1 and 2, and the same when both are out. */
  lemma {:induction false} PairAcquired()
    ensures var p := Created(1, 2, 1);
            && AcquireStep(State([], {}), 1, 2, 1) == (State([p.(free := [1])], {2}), 2)
            && AcquireStep(State([p.(free := [1])], {2}), 1, 2, 1) == (State([p.(free := [])], {2, 1}), 1)
  {
    var p := Created(1, 2, 1);
    assert p.free == [1, 2] && p.free[..1] == [1];
    assert OfSize([], 1, 0) == None;
    var entries: seq<Pool> := [];
    assert entries + [p] == [p] && WithPool(entries, 1, 2, 1) == ([p], Some(0));
    var none: set<Address> := {};
    assert none + {2} == {2};
    assert WithPool([p], 1, 2, 1) == ([p], Some(0));
    assert AcquireStep(State(entries, none), 1, 2, 1) == AcquireStep(State([p], none), 1, 2, 1);
    TakeAlone(p, none, 2, 1);
    TakeAlone(p.(free := [1]), {2}, 2, 1);
    var one: seq<Address> := [1];
    assert one[..0] == [];
    var out: set<Address> := {2};
    assert out + {1} == {2, 1};
  }

  /** From an empty registry: two buffers acquired, the first released twice, and then handed out twice. */
  lemma {:induction false} TwoOwners()
    ensures var (s1, a) := AcquireStep(State([], {}), 1, 2, 1);
            var (s2, _) := AcquireStep(s1, 1, 2, 1);
            var (s3, _) := ReleaseStep(s2, a);
            var (s4, _) := ReleaseStep(s3, a);
            var (s5, b) := AcquireStep(s4, 1, 2, 1);
            var (_, c) := AcquireStep(s5, 1, 2, 1);
            a != 0 && b == c == a
  {
    PairAcquired();
    SecondReleaseShares(Created(1, 2, 1).(free := []), {2, 1}, 2);
  }

  /** The pool that takes a released buffer has room for it on the stack it was made with. */
  predicate HasRoom(s: State, a: Address)
    requires ReleaseStep(s, a).1
  {
    var p := s.entries[OwnerOf(s.entries, a, 0).value];
    |p.free| < p.bufferCount
  }

  /** Also with the stacks in view, only the release of a buffer that is not out does harm. */
  lemma {:induction false} ReleaseInRoom(s: State, a: Address)
    requires Valid(s)
    ensures var (t, released) := ReleaseStep(s, a);
            (released ==> HasRoom(s, a)) && Valid(t) <==> a in s.out || InNoPool(s.entries, a)
  {
    ReleaseExactly(s, a);
    RefusedExactly(s, a);
    if a in s.out {
      ReleaseKeeps(s, a);
      var i := OwnerOf(s.entries, a, 0).value;
      OwnerIsSource(s.entries, s.out, i, a);
      FreeFits(s.entries[i], s.out);
    }
  }

  lemma {:induction false} AcquireValid(s: State, size: nat, count: nat, storage: Address)
    requires Valid(s) && Unused(s.entries, storage, size * count)
    ensures Valid(AcquireStep(s, size, count, storage).0)
  {
    AcquireKeeps(s, size, count, storage);
  }

  // ---------------------------------------------------------------- runs

  datatype Op = AcquireOp(size: nat, count: nat, storage: Address) | ReleaseOp(buffer: Address)

  function Step(s: State, op: Op): (t: State)
  {
    match op
    case AcquireOp(size, count, storage) => AcquireStep(s, size, count, storage).0
    case ReleaseOp(buffer) => ReleaseStep(s, buffer).0
  }

  function Run(s: State, ops: seq<Op>): (t: State)
    decreases |ops|
  {
    if ops == [] then s else Run(Step(s, ops[0]), ops[1..])
  }

  /** New storage is unused, and what is released is out or of no pool. */
  predicate Allowed(s: State, op: Op)
  {
    match op
    case AcquireOp(size, count, storage) => Unused(s.entries, storage, size * count)
    case ReleaseOp(buffer) => buffer in s.out || InNoPool(s.entries, buffer)
  }

  predicate AllAllowed(s: State, ops: seq<Op>)
    decreases |ops|
  {
    ops == [] || (Allowed(s, ops[0]) && AllAllowed(Step(s, ops[0]), ops[1..]))
  }

  lemma {:induction false} RunValid(s: State, ops: seq<Op>)
    requires Valid(s) && AllAllowed(s, ops)
    ensures Valid(Run(s, ops))
    decreases |ops|
  {
    if ops != [] {
      match ops[0] {
        case AcquireOp(size, count, storage) => AcquireKeeps(s, size, count, storage);
        case ReleaseOp(buffer) => ReleaseExactly(s, buffer);
      }
      RunValid(Step(s, ops[0]), ops[1..]);
    }
  }

  /**
    * After every run of acquires and at-most-once releases: the free and the outstanding buffers of each
    * pool partition its buffers, the free stack is within what it was made for, and outstanding buffers
    * do not overlap.
    */
  lemma {:induction false} RunSafety(ops: seq<Op>)
    requires AllAllowed(State([], {}), ops)
    ensures var s := Run(State([], {}), ops);
            && (forall e | 0 <= e < |s.entries| ::
                  Partitioned(s.entries[e], s.out) && |s.entries[e].free| <= s.entries[e].bufferCount)
            && (forall e, f, a, b | 0 <= e < |s.entries| && 0 <= f < |s.entries| && a in s.out && b in s.out
                                    && a != b && IsBuffer(s.entries[e], a) && IsBuffer(s.entries[f], b) ::
                  a + s.entries[e].bufferSize <= b || b + s.entries[f].bufferSize <= a)
  {
    var s := Run(State([], {}), ops);
    RunValid(State([], {}), ops);
    forall e | 0 <= e < |s.entries|
      ensures |s.entries[e].free| <= s.entries[e].bufferCount
    {
      FreeFits(s.entries[e], s.out);
    }
    forall e, f, a, b | 0 <= e < |s.entries| && 0 <= f < |s.entries| && a in s.out && b in s.out
                        && a != b && IsBuffer(s.entries[e], a) && IsBuffer(s.entries[f], b)
      ensures a + s.entries[e].bufferSize <= b || b + s.entries[f].bufferSize <= a
    {
      OutstandingDisjoint(s.entries, s.out, e, f, a, b);
    }
  }
}
