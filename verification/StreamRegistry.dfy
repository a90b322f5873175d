/** The buffer pools on their array stacks, and the registry that owns them. */
module StreamRegistry {
  import opened Options
  import opened StackArray
  import opened StreamPools

  /** A pool of buffers whose free ones are on a stack made for all of them. */
  class BufferPool {
    const bufferSize: nat
    const bufferCount: nat
    const storage: Address
    const stack: Stack

    /** The stack has the room it was made with: it was never resized. */
    ghost predicate Valid()
      reads stack, stack.elements
    {
      stack.Valid() && stack.count == bufferCount
    }

    ghost function View(): (p: Pool)
      reads stack, stack.elements
      requires Valid()
    {
      Pool(bufferSize, bufferCount, storage, stack.Contents())
    }

    /** Pushes every buffer of the new pool. */
    constructor (size: nat, count: nat, storage: Address)
      requires size > 0 && count > 0 && storage > 0
      ensures Valid() && fresh(stack) && fresh(stack.elements)
      ensures View() == Created(size, count, storage) && bufferSize == size
    {
      bufferSize, bufferCount, this.storage := size, count, storage;
      stack := new Stack(count);
      new;
      for i := 0 to count
        invariant stack.Valid() && stack.count == count && fresh(stack) && fresh(stack.elements)
        invariant |stack.Contents()| == i
        invariant forall k | 0 <= k < i :: stack.Contents()[k] == storage + k * size
      {
        stack.Push(storage + i * size);
      }
      assert stack.Contents() == Created(size, count, storage).free;
    }

    /** Takes the buffer on top, or null exactly when there is none. */
    method Acquire() returns (buffer: Address)
      requires Valid()
      modifies stack`index
      ensures Valid()
      ensures old(View().free) == [] ==> buffer == 0 && View() == old(View())
      ensures old(View().free) != [] ==>
                var n := |old(View().free)| - 1;
                buffer == old(View().free)[n] && View() == old(View()).(free := old(View().free)[..n])
    {
      ghost var before := stack.Contents();
      buffer := stack.Pop();
      if before != [] {
        assert stack.Contents() == before[..|before| - 1];
      }
    }

    /** Puts a buffer on top; with room for it the stack keeps its storage, without it is resized. */
    method Release(buffer: Address)
      requires Valid() && buffer != 0
      modifies stack, stack.elements
      ensures stack.Valid() && (stack.elements == old(stack.elements) || fresh(stack.elements))
      ensures Valid() <==> |old(View().free)| < bufferCount
      ensures Valid() ==>
                stack.elements == old(stack.elements) && View() == old(View()).(free := old(View().free) + [buffer])
    {
      stack.Push(buffer);
    }
  }

  class Registry {
    var entries: seq<BufferPool>
    var capacity: nat
    ghost var pools: seq<Pool> // what the entries hold
    ghost var out: set<Address>

    /** No two pools share a stack. */
    ghost predicate Separate()
      reads this`entries, set p | p in entries :: p.stack
    {
      forall e, f | 0 <= e < f < |entries| ::
        entries[e].stack != entries[f].stack && entries[e].stack.elements != entries[f].stack.elements
    }

    ghost predicate Usable()
      reads this`entries, this`capacity, this`pools, set p | p in entries :: p.stack
      reads set p | p in entries :: p.stack.elements
    {
      && Separate() && |entries| == |pools| <= capacity
      && forall e | 0 <= e < |entries| :: entries[e].Valid() && entries[e].View() == pools[e]
    }

    ghost function View(): (s: State)
      reads this
    {
      State(pools, out)
    }

    constructor ()
      ensures Usable() && View() == State([], {})
    {
      entries, capacity, pools, out := [], 0, [], {};
    }

    /** The loop over the entries for the pool of a size. */
    method FindSize(size: nat) returns (r: Option<nat>)
      requires Usable()
      ensures r == OfSize(pools, size, 0)
    {
      var i := 0;
      while i < |entries|
        invariant i <= |entries| && OfSize(pools, size, 0) == OfSize(pools, size, i)
      {
        if entries[i].bufferSize == size {
          return Some(i);
        }
        i := i + 1;
      }
      r := None;
    }

    /** The loop over the entries for the pool in whose range an address lies. */
    method FindOwner(a: Address) returns (r: Option<nat>)
      requires Usable()
      ensures r == OwnerOf(pools, a, 0)
    {
      var i := 0;
      while i < |entries|
        invariant i <= |entries| && OwnerOf(pools, a, 0) == OwnerOf(pools, a, i)
      {
        var p := entries[i];
        if p.storage <= a < p.storage + p.bufferSize * p.bufferCount {
          return Some(i);
        }
        i := i + 1;
      }
      r := None;
    }

    /** Adds a new pool behind the others. */
    method Append(pool: BufferPool)
      requires Usable() && |entries| < capacity && pool.Valid()
      requires forall p | p in entries :: p.stack != pool.stack && p.stack.elements != pool.stack.elements
      modifies this`entries, this`pools
      ensures Usable() && entries == old(entries) + [pool] && pools == old(pools) + [pool.View()]
    {
      entries, pools := entries + [pool], pools + [pool.View()];
    }

    /** Makes a pool and adds it. */
    method Create(size: nat, count: nat, storage: Address)
      requires Usable() && |entries| < capacity && size > 0 && count > 0 && storage > 0
      modifies this`entries, this`pools
      ensures Usable() && pools == old(pools) + [Created(size, count, storage)]
      ensures Grown(old(entries))
    {
      var pool := new BufferPool(size, count, storage);
      Append(pool);
      assert entries[|entries| - 1] == pool;
    }

    /** The entries are those there were, and behind them others on new storage. */
    twostate predicate Grown(before: seq<BufferPool>)
      reads this`entries, set p | p in entries :: p.stack
    {
      before <= entries &&
      forall e | |before| <= e < |entries| :: fresh(entries[e].stack) && fresh(entries[e].stack.elements)
    }

    /** Adds the first pool of a size, if one can be made. */
    method Add(size: nat, count: nat, storage: Address) returns (r: Option<nat>)
      requires Usable() && storage > 0 && OfSize(pools, size, 0).None?
      modifies this`entries, this`capacity, this`pools
      ensures Usable() && (pools, r) == WithPool(old(pools), size, count, storage)
      ensures Grown(old(entries))
      ensures capacity == if |old(entries)| < old(capacity) then old(capacity)
                          else if old(capacity) == 0 then 4 else 2 * old(capacity)
    {
      if |entries| == capacity {
        capacity := if capacity != 0 then capacity * 2 else 4;
      }
      if size == 0 || count == 0 {
        return None;
      }
      Create(size, count, storage);
      r := Some(|entries| - 1);
    }

    /** The pool of a size, created when there is none and one can be made. */
    method GetOrCreate(size: nat, count: nat, storage: Address) returns (r: Option<nat>)
      requires Usable() && storage > 0
      modifies this`entries, this`capacity, this`pools
      ensures Usable() && (pools, r) == WithPool(old(pools), size, count, storage)
      ensures Grown(old(entries))
    {
      r := FindSize(size);
      if r.None? {
        r := Add(size, count, storage);
      }
    }

    /** Takes a buffer of pool `e`. */
    method TakeFrom(e: nat) returns (buffer: Address)
      requires Usable() && e < |entries|
      modifies this`pools, this`out, entries[e].stack`index
      ensures Usable()
      ensures old(pools)[e].free == [] ==> buffer == 0 && View() == old(View())
      ensures old(pools)[e].free != [] ==>
                var p := old(pools)[e];
                var n := |p.free| - 1;
                buffer == p.free[n] &&
                View() == State(old(pools)[e := p.(free := p.free[..n])], old(out) + {p.free[n]})
    {
      out := if pools[e].free == [] then out else out + {pools[e].free[|pools[e].free| - 1]};
      buffer := entries[e].Acquire();
      pools := pools[e := entries[e].View()];
    }

    /** Puts a buffer back to pool `e`, whose stack keeps its storage exactly when it has room. */
    method GiveTo(e: nat, buffer: Address)
      requires Usable() && e < |entries| && buffer != 0
      modifies this`pools, entries[e].stack, entries[e].stack.elements
      ensures Usable() <==> |old(pools)[e].free| < old(pools)[e].bufferCount
      ensures Usable() ==>
                && pools == old(pools)[e := old(pools)[e].(free := old(pools)[e].free + [buffer])]
                && entries[e].stack.elements == old(entries[e].stack.elements)
    {
      ghost var p := pools[e];
      entries[e].Release(buffer);
      pools := pools[e := p.(free := p.free + [buffer])];
    }

    /** A buffer of the pool of a size, or null. */
    method Acquire(size: nat, count: nat, storage: Address) returns (buffer: Address)
      requires Usable() && storage > 0
      modifies this, (set p | p in entries :: p.stack)`index
      ensures Usable() && (View(), buffer) == AcquireStep(old(View()), size, count, storage)
      ensures Grown(old(entries))
    {
      var r := GetOrCreate(size, count, storage);
      if r.None? {
        return 0;
      }
      buffer := TakeFrom(r.value);
    }

    /**
      * Gives a buffer back to the pool in whose range it lies; an address of no pool is refused. Every
      * stack stays on the storage it was made with exactly when there is room.
      */
    method Release(buffer: Address) returns (released: bool)
      requires Usable()
      modifies this, set p | p in entries :: p.stack
      modifies set p | p in entries :: p.stack.elements
      ensures entries == old(entries) && released == ReleaseStep(old(View()), buffer).1
      ensures Usable() <==> released ==> HasRoom(old(View()), buffer)
      ensures Usable() ==> View() == ReleaseStep(old(View()), buffer).0
      ensures Usable() ==> forall p | p in entries :: p.stack.elements == old(p.stack.elements)
    {
      if buffer == 0 {
        return false;
      }
      var e := FindOwner(buffer);
      if e.None? {
        return false;
      }
      GiveTo(e.value, buffer);
      out := out - {buffer};
      return true;
    }
  }

  /** One allowed operation on the registry. */
  method Apply(registry: Registry, op: Op)
    requires registry.Usable() && Valid(registry.View()) && Allowed(registry.View(), op)
    modifies registry, set p | p in registry.entries :: p.stack
    modifies set p | p in registry.entries :: p.stack.elements
    ensures registry.Usable() && Valid(registry.View()) && registry.View() == Step(old(registry.View()), op)
    ensures forall p | p in registry.entries && p !in old(registry.entries) ::
              fresh(p.stack) && fresh(p.stack.elements)
    ensures forall p | p in registry.entries && p in old(registry.entries) ::
              p.stack.elements == old(p.stack.elements)
  {
    ghost var s := registry.View();
    match op {
      case AcquireOp(size, count, storage) =>
        AcquireValid(s, size, count, storage);
        var _ := registry.Acquire(size, count, storage);
      case ReleaseOp(buffer) =>
        ReleaseInRoom(s, buffer);
        var _ := registry.Release(buffer);
    }
  }

  /** Every run from an empty registry goes as the steps say; no stack is ever resized. */
  method RunFresh(ops: seq<Op>) returns (registry: Registry)
    requires AllAllowed(State([], {}), ops)
    ensures fresh(registry) && registry.Usable() && registry.View() == Run(State([], {}), ops)
  {
    registry := new Registry();
    var i := 0;
    assert ops[0..] == ops;
    while i < |ops|
      invariant i <= |ops| && fresh(registry) && registry.Usable() && Valid(registry.View())
      invariant forall p | p in registry.entries :: fresh(p.stack) && fresh(p.stack.elements)
      invariant AllAllowed(registry.View(), ops[i..])
      invariant Run(registry.View(), ops[i..]) == Run(State([], {}), ops)
    {
      assert ops[i..][0] == ops[i] && ops[i..][1..] == ops[i + 1..];
      Apply(registry, ops[i]);
      i := i + 1;
    }
    assert ops[i..] == [];
  }
}
