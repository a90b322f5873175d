/**
  * The runtime's hash table: open addressing with Robin Hood displacement on insert,
  * backward-shift delete, and growing and shrinking by rebuilding into new storage.
  * Its abstract value is a finite map from keys to values.
  */
module HashTable {
  import opened BitMask
  import opened Collections
  import opened Options
  import opened RobinHood

  const LOADFACTOR_GROW: nat := 75
  const LOADFACTOR_SHRINK: nat := 20
  const MINIMUM_CAPACITY: nat := 16

  /** `(index + 1) & (capacity - 1)`: the cyclically next slot. */
  function MaskedNext(index: nat, cap: nat, ghost log: nat): (r: nat)
    requires cap == Pow2(log) && index < cap
    ensures r == Next(index, cap)
  {
    MaskedStep(index, cap, log);
    And(index + 1, cap - 1)
  }

  /** The probing loop of an insert, carrying `start` from slot `home`; `z` is a free slot. */
  method InsertAt<K(==), V>(elements: array<Slot<K, V>>, start: Slot<K, V>, home: nat, ghost log: nat, ghost z: nat)
    returns (r: Option<V>)
    requires elements.Length == Pow2(log) && home < elements.Length && z < elements.Length
    requires start.Taken? && elements[z].Free?
    modifies elements
    ensures (elements[..], r) == InsertFrom(old(elements[..]), start, home, z)
  {
    var c, index := start, home;
    ghost var outcome := InsertFrom(elements[..], c, index, z);
    while true
      invariant 0 <= index < elements.Length && elements[z].Free? && c.Taken?
      invariant InsertFrom(elements[..], c, index, z) == outcome
      decreases Dist(index, z, elements.Length)
    {
      var current := elements[index];
      if current.Free? {
        elements[index] := c;
        return None;
      }
      if current.hash == c.hash && current.key == c.key {
        elements[index] := c;
        return Some(current.value);
      }
      if current.probe < c.probe {
        elements[index] := c;
        c := current;
      }
      c := c.(probe := Increment16(c.probe));
      index := MaskedNext(index, elements.Length, log);
    }
  }

  /** An insert into storage that holds `m`. */
  method Insert<K(!new,==), V>(elements: array<Slot<K, V>>, hash: K -> nat, key: K, value: V,
                               ghost log: nat, ghost m: map<K, V>)
    returns (r: Option<V>)
    requires elements.Length == Pow2(log) && WellFormed(elements[..], hash) && Holds(elements[..], m)
    requires |m| < elements.Length && |m| < PROBE_LIMIT - 1
    modifies elements
    ensures WellFormed(elements[..], hash) && Holds(elements[..], m[key := value])
    ensures r == Lookup(m, key)
  {
    ghost var s := elements[..];
    ghost var z := FreeSlot(s, m);
    var c := Taken(1, hash(key), key, value);
    var index := And(c.hash, elements.Length - 1);
    MaskIsRemainder(c.hash, log);
    InsertCorrect(s, hash, m, key, value, c, index, false, z);
    r := InsertAt(elements, c, index, log, z);
  }

  /** The search loop of a lookup or a removal, in storage that holds `m`. */
  method Find<K(!new,==), V>(elements: array<Slot<K, V>>, hash: K -> nat, key: K,
                             ghost log: nat, ghost m: map<K, V>)
    returns (r: Option<nat>)
    requires elements.Length == Pow2(log) && WellFormed(elements[..], hash) && Holds(elements[..], m)
    requires |m| < elements.Length
    ensures match r
            case None => key !in m
            case Some(i) => i < elements.Length && elements[i].Taken? && elements[i].key == key
                            && key in m && m[key] == elements[i].value
  {
    ghost var s := elements[..];
    ghost var z := FreeSlot(s, m);
    var h := hash(key);
    var index := And(h, elements.Length - 1);
    FindCorrect(s, hash, key, index, z);
    while true
      invariant 0 <= index < elements.Length
      invariant FindFrom(s, h, key, index, z) == FindFrom(s, h, key, Home(h, |s|), z)
      decreases Dist(index, z, elements.Length)
    {
      var current := elements[index];
      if current.Free? {
        return None;
      }
      if current.hash == h && current.key == key {
        return Some(index);
      }
      index := MaskedNext(index, elements.Length, log);
    }
  }

  /** The backward-shift loop; `z` is another free slot. */
  method Bump<K, V>(elements: array<Slot<K, V>>, start: nat, ghost log: nat, ghost z: nat)
    requires elements.Length == Pow2(log) && start < elements.Length && z < elements.Length
    requires elements[z].Free? && z != start
    modifies elements
    ensures elements[..] == ShiftFrom(old(elements[..])[start := Free], start, z)
  {
    ghost var outcome := ShiftFrom(elements[..][start := Free], start, z);
    var previous := start;
    var index := MaskedNext(start, elements.Length, log);
    while true
      invariant 0 <= previous < elements.Length && index == Next(previous, elements.Length)
      invariant elements[z].Free? && z != previous
      invariant ShiftFrom(elements[..][previous := Free], previous, z) == outcome
      decreases Dist(index, z, elements.Length)
    {
      var current := elements[index];
      ghost var t := elements[..][previous := Free];
      ShiftUnfolds(t, previous, z);
      if Probe(current) <= 1 {
        elements[previous] := Free;
        assert elements[..] == t;
        return;
      }
      elements[index] := current.(probe := current.probe - 1);
      elements[previous] := elements[index];
      assert elements[..][index := Free] == Shifted(t, previous);
      previous := index;
      index := MaskedNext(index, elements.Length, log);
    }
  }

  /** Deletes slot `start` and shifts the run behind it back by one. */
  method RemoveAndBump<K(!new,==), V>(elements: array<Slot<K, V>>, hash: K -> nat, start: nat,
                                      ghost log: nat, ghost m: map<K, V>)
    requires elements.Length == Pow2(log) && WellFormed(elements[..], hash) && Holds(elements[..], m)
    requires |m| < elements.Length && start < elements.Length && elements[start].Taken?
    modifies elements
    ensures WellFormed(elements[..], hash) && Holds(elements[..], m - {old(elements[start].key)})
  {
    ghost var s := elements[..];
    ghost var z := FreeSlot(s, m);
    RemovalMakesHole(s, hash, m, start);
    ShiftCorrect(s[start := Free], hash, m - {s[start].key}, start, z);
    Bump(elements, start, log, z);
  }

  class HashTable<K(!new,==), V> {
    const hash: K -> nat

    var capacity: nat
    var elementCount: nat
    var growCount: nat
    var shrinkCount: nat
    var elements: array<Slot<K, V>>

    ghost var log: nat
    ghost var contents: map<K, V>

    /** The storage is well formed and holds the contents. */
    ghost predicate Stored()
      reads this, elements
    {
      && capacity == Pow2(log) == elements.Length
      && WellFormed(elements[..], hash)
      && Holds(elements[..], contents)
    }

    ghost predicate Valid()
      reads this, elements
    {
      && Stored()
      && capacity >= MINIMUM_CAPACITY
      && growCount == capacity * LOADFACTOR_GROW / 100
      && shrinkCount == capacity * LOADFACTOR_SHRINK / 100
      && elementCount == |contents| <= growCount
    }

    /** A table over the least power of two that is at least 16 and the requested capacity. */
    constructor (requestCapacity: nat, hash: K -> nat)
      ensures Valid() && fresh(elements)
      ensures this.hash == hash && contents == map[]
      ensures capacity >= 16 && capacity >= requestCapacity && (capacity > 16 ==> capacity < 2 * requestCapacity)
    {
      var initialCapacity := MINIMUM_CAPACITY;
      ghost var k := 4;
      assert Pow2(4) == 16 by {
        assert Pow2(2) == 4;
      }
      if requestCapacity > initialCapacity {
        while initialCapacity < requestCapacity
          invariant initialCapacity == Pow2(k) && initialCapacity >= MINIMUM_CAPACITY
          invariant initialCapacity > MINIMUM_CAPACITY ==> initialCapacity < 2 * requestCapacity
        {
          initialCapacity := initialCapacity * 2;
          k := k + 1;
        }
      }
      this.hash := hash;
      capacity, elementCount := initialCapacity, 0;
      growCount := initialCapacity * LOADFACTOR_GROW / 100;
      shrinkCount := initialCapacity * LOADFACTOR_SHRINK / 100;
      elements := new Slot<K, V>[initialCapacity](_ => Free);
      log, contents := k, map[];
      new;
      AllFreeIsEmpty(elements[..], this.hash);
    }

    /** The empty table that a rebuild of `src` fills. */
    constructor Clone(src: HashTable<K, V>, newCapacity: nat, ghost newLog: nat)
      requires newCapacity == Pow2(newLog) && newCapacity >= MINIMUM_CAPACITY
      ensures Valid() && fresh(elements)
      ensures hash == src.hash && contents == map[] && capacity == newCapacity && log == newLog
    {
      hash := src.hash;
      capacity, elementCount := newCapacity, 0;
      growCount := newCapacity * LOADFACTOR_GROW / 100;
      shrinkCount := newCapacity * LOADFACTOR_SHRINK / 100;
      elements := new Slot<K, V>[newCapacity](_ => Free);
      log, contents := newLog, map[];
      new;
      AllFreeIsEmpty(elements[..], hash);
    }

    /** Inserts or replaces; returns the replaced value exactly when the key was present. */
    method Set(key: K, value: V) returns (r: Option<V>)
      requires Valid() && |contents| < PROBE_LIMIT - 1
      modifies this, elements
      ensures Valid()
      ensures if old(elementCount == growCount) then fresh(elements) else elements == old(elements)
      ensures contents == old(contents)[key := value]
      ensures r == Lookup(old(contents), key)
      ensures capacity == if old(elementCount == growCount) then 2 * old(capacity) else old(capacity)
      decreases if elementCount == growCount then 2 else 0
    {
      if elementCount == growCount {
        Resize(capacity * 2, log + 1);
      }
      r := Insert(elements, hash, key, value, log, contents);
      contents := contents[key := value];
      if r.None? {
        elementCount := elementCount + 1;
      }
    }

    /** Returns the stored value, or nothing exactly when the key is absent. */
    method Get(key: K) returns (r: Option<V>)
      requires Valid()
      ensures r == Lookup(contents, key)
    {
      var i := Find(elements, hash, key, log, contents);
      r := if i.Some? then Some(elements[i.value].value) else None;
    }

    /** Returns and deletes the stored value, or changes no content exactly when the key is absent. */
    method Remove(key: K) returns (r: Option<V>)
      requires Valid() && |contents| < PROBE_LIMIT
      modifies this, elements
      ensures Valid() && (elements == old(elements) || fresh(elements))
      ensures contents == old(contents) - {key}
      ensures r == Lookup(old(contents), key)
      ensures capacity == if old(elementCount == shrinkCount && capacity >= 2 * MINIMUM_CAPACITY)
                          then old(capacity) / 2 else old(capacity)
    {
      Shrink();
      r := Delete(key);
    }

    method Delete(key: K) returns (r: Option<V>)
      requires Valid()
      modifies this`elementCount, this`contents, elements
      ensures Valid() && contents == old(contents) - {key}
      ensures r == Lookup(old(contents), key)
    {
      var i := Find(elements, hash, key, log, contents);
      WithoutKey(contents, key);
      if i.None? {
        return None;
      }
      r := Some(elements[i.value].value);
      RemoveAndBump(elements, hash, i.value, log, contents);
      contents := contents - {key};
      elementCount := elementCount - 1;
    }

    /** Halves the capacity when the element count has come down to the shrink count. */
    method Shrink()
      requires Valid() && |contents| < PROBE_LIMIT
      modifies this
      ensures Valid() && contents == old(contents) && (elements == old(elements) || fresh(elements))
      ensures capacity == if old(elementCount == shrinkCount && capacity >= 2 * MINIMUM_CAPACITY)
                          then old(capacity) / 2 else old(capacity)
    {
      if elementCount == shrinkCount {
        Resize(capacity / 2, log - 1);
      }
    }

    /** Rebuilds the table over new storage; the inserts it makes never resize again. */
    method Resize(newCapacity: nat, ghost newLog: int)
      requires Valid() && |contents| < PROBE_LIMIT
      requires newCapacity >= MINIMUM_CAPACITY ==> newLog >= 0 && newCapacity == Pow2(newLog)
      requires newCapacity >= MINIMUM_CAPACITY ==> elementCount <= newCapacity * LOADFACTOR_GROW / 100
      modifies this
      ensures Valid() && contents == old(contents)
      ensures if newCapacity < MINIMUM_CAPACITY
              then capacity == old(capacity) && elements == old(elements)
              else capacity == newCapacity && fresh(elements)
      decreases 1, 2
    {
      if newCapacity < MINIMUM_CAPACITY {
        return;
      }
      var temporary := new HashTable.Clone(this, newCapacity, newLog);
      CopyInto(temporary);
      Adopt(temporary);
    }

    /** Takes over the storage of a table with the same contents. */
    method Adopt(temporary: HashTable<K, V>)
      requires temporary.Valid() && temporary.hash == hash
      requires temporary.contents == contents && elementCount == |contents|
      modifies this
      ensures Valid() && contents == old(contents)
      ensures elements == temporary.elements && capacity == temporary.capacity
    {
      elements := temporary.elements;
      capacity := temporary.capacity;
      growCount := temporary.growCount;
      shrinkCount := temporary.shrinkCount;
      log := temporary.log;
    }

    /** Copies slot `i` to the table under construction. */
    method CopySlot(temporary: HashTable<K, V>, i: nat, ghost s: seq<Slot<K, V>>)
      requires Valid() && |contents| < PROBE_LIMIT && i < capacity && s == elements[..]
      requires temporary != this && temporary.elements != elements
      requires temporary.Valid() && elementCount <= temporary.growCount
      requires HoldsBefore(s, temporary.contents, i)
      modifies temporary, temporary.elements
      ensures temporary.Valid() && HoldsBefore(s, temporary.contents, i + 1)
      ensures temporary.elements == old(temporary.elements) && temporary.capacity == old(temporary.capacity)
      decreases 1, 0
    {
      RebuildStep(s, contents, i, temporary.contents);
      var current := elements[i];
      if current.Taken? {
        var _ := temporary.Set(current.key, current.value);
      }
    }

    /** Sets every stored element in another table, which is empty and large enough. */
    method CopyInto(temporary: HashTable<K, V>)
      requires Valid() && |contents| < PROBE_LIMIT
      requires temporary != this && temporary.elements != elements
      requires temporary.Valid() && temporary.contents == map[] && elementCount <= temporary.growCount
      modifies temporary, temporary.elements
      ensures temporary.Valid() && temporary.contents == contents
      ensures temporary.elements == old(temporary.elements) && temporary.capacity == old(temporary.capacity)
      decreases 1, 1
    {
      ghost var s := elements[..];
      for i := 0 to capacity
        invariant temporary.Valid()
        invariant temporary.elements == old(temporary.elements) && temporary.capacity == old(temporary.capacity)
        invariant HoldsBefore(s, temporary.contents, i)
      {
        CopySlot(temporary, i, s);
      }
      RebuildEnds(s, contents, temporary.contents);
    }

    /** Visits the taken slots in slot order: every entry exactly once. */
    method Enumerate() returns (visited: seq<(K, V)>)
      requires Valid()
      ensures Lists(visited, contents)
    {
      ghost var s, n := elements[..], map[];
      visited := [];
      for i := 0 to capacity
        invariant HoldsBefore(s, n, i) && Lists(visited, n)
      {
        RebuildStep(s, contents, i, n);
        var current := elements[i];
        if current.Taken? {
          ListsAppend(visited, n, current.key, current.value);
          visited := visited + [(current.key, current.value)];
          n := n[current.key := current.value];
        }
      }
      RebuildEnds(s, contents, n);
    }

    method Apply(op: Op<K, V>) returns (r: Option<V>)
      requires Valid() && Allowed(contents, op)
      modifies this, elements
      ensures Valid() && (elements == old(elements) || fresh(elements))
      ensures contents == Effect(old(contents), op)
      ensures r == Lookup(old(contents), op.key)
    {
      match op {
        case SetOp(k, v) => r := Set(k, v);
        case GetOp(k) => r := Get(k);
        case RemoveOp(k) => r := Remove(k);
      }
    }

    /** A table grows at three quarters of its capacity and shrinks at a fifth, but never below 16 slots. */
    lemma {:induction false} Thresholds()
      requires Valid()
      ensures capacity >= 16 && growCount == 3 * capacity / 4 && shrinkCount == capacity / 5
    {
      assert capacity * 75 / 100 == 3 * capacity / 4;
    }

    /**
      * In a valid table a probe count is one plus the distance from home, a count above one follows a
      * slot with at least one less, no count exceeds the number of elements, and some slot is free.
      */
    lemma {:induction false} ProbeBounds()
      requires Valid()
      ensures exists z :: 0 <= z < capacity && elements[z].Free?
      ensures forall i | 0 <= i < capacity :: Probe(elements[i]) <= elementCount
      ensures forall i | 0 <= i < capacity && elements[i].Taken? ::
                elements[i].probe == 1 + Dist(Home(hash(elements[i].key), capacity), i, capacity)
      ensures forall i | 0 <= i < capacity && Probe(elements[i]) > 1 ::
                Probe(elements[Back(i, 1, capacity)]) >= Probe(elements[i]) - 1
    {
      var s := elements[..];
      var z := FreeSlot(s, contents);
      assert elements[z].Free?;
      forall i | 0 <= i < capacity
        ensures Probe(elements[i]) <= elementCount
        ensures elements[i].Taken? ==>
                  elements[i].probe == 1 + Dist(Home(hash(elements[i].key), capacity), i, capacity)
        ensures Probe(elements[Back(i, 1, capacity)]) >= Probe(elements[i]) - 1
      {
        ProbeWithinCount(s, contents, i, z);
        assert HomedAt(s, hash, i);
        assert OrderedAt(s, Back(i, 1, capacity));
      }
    }
  }

  // ---------------------------------------------------------------- runs

  datatype Op<K, V> = SetOp(key: K, value: V) | GetOp(key: K) | RemoveOp(key: K)

  /** The finite map after an operation. */
  function Effect<K(==), V>(m: map<K, V>, op: Op<K, V>): (n: map<K, V>)
  {
    match op
    case SetOp(k, v) => m[k := v]
    case GetOp(_) => m
    case RemoveOp(k) => m - {k}
  }

  /** What a finite map answers to each operation of a run: the entry there was. */
  function Answers<K(==), V>(m: map<K, V>, ops: seq<Op<K, V>>): (rs: seq<Option<V>>)
    decreases |ops|
  {
    if ops == [] then [] else [Lookup(m, ops[0].key)] + Answers(Effect(m, ops[0]), ops[1..])
  }

  function Final<K(==), V>(m: map<K, V>, ops: seq<Op<K, V>>): (n: map<K, V>)
    decreases |ops|
  {
    if ops == [] then m else Final(Effect(m, ops[0]), ops[1..])
  }

  /** The map is small enough for 16-bit probe counts: a set may add an element, a removal may rebuild. */
  predicate Allowed<K(==), V>(m: map<K, V>, op: Op<K, V>)
  {
    match op
    case SetOp(_, _) => |m| < PROBE_LIMIT - 1
    case GetOp(_) => true
    case RemoveOp(_) => |m| < PROBE_LIMIT
  }

  predicate Fits<K(==), V>(m: map<K, V>, ops: seq<Op<K, V>>)
    decreases |ops|
  {
    ops == [] || (Allowed(m, ops[0]) && Fits(Effect(m, ops[0]), ops[1..]))
  }

  function Insertions<K, V>(ops: seq<Op<K, V>>): (n: nat)
  {
    if ops == [] then 0 else (if ops[0].SetOp? then 1 else 0) + Insertions(ops[1..])
  }

  /** A run of any length fits if it sets few enough keys. */
  lemma {:induction false} ShortRunFits<K, V>(m: map<K, V>, ops: seq<Op<K, V>>)
    requires |m| + Insertions(ops) < PROBE_LIMIT
    ensures Fits(m, ops)
    decreases |ops|
  {
    if ops != [] {
      var k, n := ops[0].key, Effect(m, ops[0]);
      if ops[0].SetOp? {
        assert n.Keys <= m.Keys + {k};
        SubsetCard(n.Keys, m.Keys + {k});
      } else {
        assert n.Keys <= m.Keys;
        SubsetCard(n.Keys, m.Keys);
      }
      ShortRunFits(n, ops[1..]);
    }
  }

  /** Any run on a table answers as the finite map does, through every grow and shrink. */
  method RunOn<K(!new,==), V>(table: HashTable<K, V>, ops: seq<Op<K, V>>) returns (answers: seq<Option<V>>)
    requires table.Valid() && Fits(table.contents, ops)
    modifies table, table.elements
    ensures table.Valid() && (table.elements == old(table.elements) || fresh(table.elements))
    ensures answers == Answers(old(table.contents), ops)
    ensures table.contents == Final(old(table.contents), ops)
    decreases |ops|
  {
    if ops == [] {
      return [];
    }
    var r := table.Apply(ops[0]);
    var rest := RunOn(table, ops[1..]);
    answers := [r] + rest;
  }

  /** Any run from a fresh table, whatever capacity was asked for, answers as the finite map does. */
  method RunFresh<K(!new,==), V>(requestCapacity: nat, hash: K -> nat, ops: seq<Op<K, V>>)
    returns (answers: seq<Option<V>>)
    requires Fits(map[], ops)
    ensures answers == Answers(map[], ops)
  {
    var table := new HashTable<K, V>(requestCapacity, hash);
    answers := RunOn(table, ops);
  }
}
