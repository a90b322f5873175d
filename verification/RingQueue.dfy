/**
  * The bounded ring queue: two free-running unsigned 32-bit counters over a fixed buffer.
  * It behaves as a bounded FIFO over every run exactly when its capacity divides 2^32.
  */
module RingQueue {
  import opened BitMask
  import opened Machine
  import opened Options

  /** Unsigned 32-bit addition and subtraction. */
  function Add32(a: Word, b: Word): (r: Word)
  {
    if a + b < WORD then a + b else a + b - WORD
  }

  function Sub32(a: Word, b: Word): (r: Word)
  {
    if a >= b then a - b else a + WORD - b
  }

  /** The buffer position a counter points at. */
  function Slot(counter: Word, capacity: Word): (p: Word)
    requires capacity > 0
    ensures p < capacity
  {
    counter % capacity
  }

  /** The fields of a queue. */
  datatype Ring<T> = Ring(capacity: Word, dequeueIndex: Word, queueIndex: Word, elements: seq<T>)

  ghost predicate Shaped<T>(q: Ring<T>)
  {
    q.capacity > 0 && |q.elements| == q.capacity
  }

  /** The number of queued elements: the unsigned difference of the counters. */
  function Length<T>(q: Ring<T>): (n: Word)
  {
    Sub32(q.queueIndex, q.dequeueIndex)
  }

  ghost predicate Valid<T>(q: Ring<T>)
  {
    Shaped(q) && Length(q) <= q.capacity
  }

  /** The `j`-th queued element. */
  ghost function Queued<T>(q: Ring<T>, j: Word): (x: T)
    requires Shaped(q)
  {
    q.elements[Slot(Add32(q.dequeueIndex, j), q.capacity)]
  }

  ghost function Contents<T>(q: Ring<T>): (s: seq<T>)
    requires Shaped(q)
  {
    seq(Length(q), j requires 0 <= j < Length(q) => Queued(q, j))
  }

  // ---------------------------------------------------------------- operations

  datatype Op<T> = Enqueue(value: T) | Dequeue

  /** What an operation returns: whether an enqueue was accepted, or the element dequeued. */
  datatype Output<T> = Accepted | Refused | Element(value: T) | Empty

  ghost function Step<T>(q: Ring<T>, op: Op<T>): (r: (Ring<T>, Output<T>))
    requires Shaped(q)
    ensures Shaped(r.0) && r.0.capacity == q.capacity
  {
    match op
    case Enqueue(x) =>
      if Sub32(q.capacity, Length(q)) == 0 then (q, Refused)
      else (q.(queueIndex := Add32(q.queueIndex, 1),
               elements := q.elements[Slot(q.queueIndex, q.capacity) := x]), Accepted)
    case Dequeue =>
      if q.dequeueIndex == q.queueIndex then (q, Empty)
      else (q.(dequeueIndex := Add32(q.dequeueIndex, 1)), Element(q.elements[Slot(q.dequeueIndex, q.capacity)]))
  }

  ghost function Outputs<T>(q: Ring<T>, ops: seq<Op<T>>): (os: seq<Output<T>>)
    requires Shaped(q)
    decreases |ops|
  {
    if ops == [] then [] else
      [Step(q, ops[0]).1] + Outputs(Step(q, ops[0]).0, ops[1..])
  }

  /** The same operation on a sequence of bounded length. */
  function FifoStep<T>(s: seq<T>, capacity: nat, op: Op<T>): (r: (seq<T>, Output<T>))
  {
    match op
    case Enqueue(x) => if |s| == capacity then (s, Refused) else (s + [x], Accepted)
    case Dequeue => if s == [] then (s, Empty) else (s[1..], Element(s[0]))
  }

  function FifoOutputs<T>(s: seq<T>, capacity: nat, ops: seq<Op<T>>): (os: seq<Output<T>>)
    decreases |ops|
  {
    if ops == [] then [] else
      [FifoStep(s, capacity, ops[0]).1] + FifoOutputs(FifoStep(s, capacity, ops[0]).0, capacity, ops[1..])
  }

  // ---------------------------------------------------------------- capacities that divide 2^32

  /** Numbers less than `c` apart have the same remainder only when equal. */
  lemma {:induction false} CloseRemainders(a: nat, b: nat, c: nat)
    requires c > 0 && a % c == b % c && b <= a < b + c
    ensures a == b
  {
    assert c * (a / c - b / c) == a - b;
    if a / c > b / c {
      MulAtLeast(c, a / c - b / c);
    }
  }

  lemma {:induction false} RemainderShift(a: nat, c: nat, k: nat)
    requires c > 0
    ensures (a + c * k) % c == a % c
  {
    RemainderUnique(a + c * k, c, a / c + k, a % c) by {
      assert c * (a / c + k) == c * (a / c) + c * k;
    }
  }

  lemma {:induction false} WrapKeepsSlot(b: Word, j: Word, c: Word)
    requires c > 0 && WORD % c == 0
    ensures Slot(Add32(b, j), c) == (b + j) % c
  {
    if b + j >= WORD {
      assert WORD == c * (WORD / c);
      RemainderShift(b + j - WORD, c, WORD / c);
    }
  }

  /** Elements less than a capacity apart lie at different positions, wherever the counters are. */
  lemma {:induction false} SlotsDiffer(b: Word, i: Word, j: Word, c: Word)
    requires c > 0 && WORD % c == 0 && i < j < i + c
    ensures Slot(Add32(b, i), c) != Slot(Add32(b, j), c)
  {
    WrapKeepsSlot(b, i, c);
    WrapKeepsSlot(b, j, c);
    if (b + i) % c == (b + j) % c {
      CloseRemainders(b + j, b + i, c);
    }
  }

  /** An enqueue is refused, and changes nothing, exactly when the queue is full; else it appends. */
  lemma {:induction false} EnqueueRefines<T>(q: Ring<T>, x: T)
    requires Valid(q) && WORD % q.capacity == 0
    ensures var (q', o) := Step(q, Enqueue(x));
            if |Contents(q)| == q.capacity then q' == q && o == Refused
            else Valid(q') && Contents(q') == Contents(q) + [x] && o == Accepted
  {
    var q', n := Step(q, Enqueue(x)).0, Length(q);
    if n < q.capacity {
      assert Add32(q.dequeueIndex, n) == q.queueIndex;
      assert Length(q') == n + 1;
      forall j: Word | j < n
        ensures Queued(q', j) == Queued(q, j)
      {
        SlotsDiffer(q.dequeueIndex, j, n, q.capacity);
      }
    }
  }

  /** A dequeue takes the oldest element, or nothing exactly when there is none. */
  lemma {:induction false} DequeueRefines<T>(q: Ring<T>)
    requires Valid(q)
    ensures var (q', o) := Step(q, Dequeue);
            if Contents(q) == [] then q' == q && o == Empty
            else Valid(q') && Contents(q') == Contents(q)[1..] && o == Element(Contents(q)[0])
  {
    var q', n := Step(q, Dequeue).0, Length(q);
    if n > 0 {
      assert Length(q') == n - 1;
      forall j: Word | j < n - 1
        ensures Queued(q', j) == Queued(q, j + 1)
      {
        assert Add32(q'.dequeueIndex, j) == Add32(q.dequeueIndex, j + 1);
      }
    }
  }

  /** One operation of the ring is one operation of the bounded FIFO, wherever the counters are. */
  lemma {:induction false} StepRefines<T>(q: Ring<T>, op: Op<T>)
    requires Valid(q) && WORD % q.capacity == 0
    ensures var (q', o) := Step(q, op);
            Valid(q') && (Contents(q'), o) == FifoStep(Contents(q), q.capacity, op)
  {
    match op
    case Enqueue(x) => EnqueueRefines(q, x);
    case Dequeue => DequeueRefines(q);
  }

  /** Every run of the ring answers as the bounded FIFO does. */
  lemma {:induction false} RunRefines<T>(q: Ring<T>, ops: seq<Op<T>>)
    requires Valid(q) && WORD % q.capacity == 0
    ensures Outputs(q, ops) == FifoOutputs(Contents(q), q.capacity, ops)
    decreases |ops|
  {
    if ops != [] {
      StepRefines(q, ops[0]);
      RunRefines(Step(q, ops[0]).0, ops[1..]);
    }
  }

  // ---------------------------------------------------------------- capacities that do not

  function Fresh<T>(capacity: Word, elements: seq<T>): (q: Ring<T>)
  {
    Ring(capacity, 0, 0, elements)
  }

  /** Some run tells the ring from the bounded FIFO. */
  ghost predicate Differs<T(!new)>(q: Ring<T>, s: seq<T>)
    requires Shaped(q)
  {
    exists ops: seq<Op<T>> :: Outputs(q, ops) != FifoOutputs(s, q.capacity, ops)
  }

  lemma {:induction false} DiffersAfter<T(!new)>(q: Ring<T>, s: seq<T>, op: Op<T>)
    requires Shaped(q) && Differs(Step(q, op).0, FifoStep(s, q.capacity, op).0)
    ensures Differs(q, s)
  {
    var q', s' := Step(q, op).0, FifoStep(s, q.capacity, op).0;
    var rest: seq<Op<T>> :| Outputs(q', rest) != FifoOutputs(s', q.capacity, rest);
    var ops := [op] + rest;
    assert ops[1..] == rest;
    assert Outputs(q, ops)[1..] == Outputs(q', rest);
    assert FifoOutputs(s, q.capacity, ops)[1..] == FifoOutputs(s', q.capacity, rest);
  }

  /** An element enqueued just after the counter wraps overwrites the oldest one. */
  lemma {:induction false} OverwritesOldest<T(!new)>(q: Ring<T>, s: seq<T>, a: T, b: T)
    requires Shaped(q) && a != b && WORD % q.capacity != 0
    requires q.dequeueIndex == WORD - WORD % q.capacity && q.queueIndex == 0
    requires |s| == WORD % q.capacity && s[0] == a
    ensures Differs(q, s)
  {
    var c := q.capacity;
    RemainderUnique(q.dequeueIndex, c, WORD / c, 0);
    RemainderUnique(0, c, 0, 0);
    var q1, s1 := Step(q, Enqueue(b)).0, FifoStep(s, c, Enqueue(b)).0;
    var last := [Dequeue];
    assert Outputs(q1, last)[0] == Element(b);
    assert FifoOutputs(s1, c, last)[0] == Element(a);
    DiffersAfter(q, s, Enqueue(b));
  }

  lemma {:induction false} FillDiffers<T(!new)>(q: Ring<T>, s: seq<T>, a: T, b: T)
    requires Shaped(q) && a != b && WORD % q.capacity != 0
    requires q.dequeueIndex == WORD - WORD % q.capacity
    requires |s| == Length(q) <= WORD % q.capacity && (s != [] ==> s[0] == a)
    ensures Differs(q, s)
    decreases WORD % q.capacity - |s|
  {
    if |s| == WORD % q.capacity {
      OverwritesOldest(q, s, a, b);
    } else {
      var op := Enqueue(a);
      var q', s' := Step(q, op).0, FifoStep(s, q.capacity, op).0;
      assert Length(q') == |s| + 1 == |s'|;
      FillDiffers(q', s', a, b);
      DiffersAfter(q, s, op);
    }
  }

  lemma {:induction false} ChurnDiffers<T(!new)>(q: Ring<T>, a: T, b: T)
    requires Shaped(q) && a != b && WORD % q.capacity != 0
    requires q.dequeueIndex == q.queueIndex <= WORD - WORD % q.capacity
    ensures Differs(q, [])
    decreases WORD - q.queueIndex
  {
    if q.queueIndex == WORD - WORD % q.capacity {
      FillDiffers(q, [], a, b);
    } else {
      var q1 := Step(q, Enqueue(a)).0;
      ChurnDiffers(Step(q1, Dequeue).0, a, b);
      assert [] + [a] == [a] && [a][1..] == [];
      DiffersAfter(q1, [a], Dequeue);
      DiffersAfter(q, [], Enqueue(a));
    }
  }

  /** Every run from here, starting empty, answers as the bounded FIFO does. */
  ghost predicate IsFifo<T(!new)>(q: Ring<T>)
    requires Shaped(q)
  {
    !Differs(q, [])
  }

  /** A fresh queue is a bounded FIFO over all runs if and only if its capacity divides 2^32. */
  lemma {:induction false} FifoExactlyWhenDivides<T(!new)>(capacity: Word, elements: seq<T>, a: T, b: T)
    requires capacity > 0 && |elements| == capacity && a != b
    ensures IsFifo(Fresh(capacity, elements)) <==> WORD % capacity == 0
  {
    var q := Fresh(capacity, elements);
    if WORD % capacity == 0 {
      forall ops: seq<Op<T>>
        ensures Outputs(q, ops) == FifoOutputs([], capacity, ops)
      {
        RunRefines(q, ops);
        assert Contents(q) == [];
      }
    } else {
      ChurnDiffers(q, a, b);
    }
  }

  // ---------------------------------------------------------------- the queue object

  /** A queue in place; a null pointer is refused and never stored. */
  class Queue<T(0)> {
    var dequeueIndex: Word
    var queueIndex: Word
    const capacity: Word
    const elements: array<T>

    ghost predicate Usable()
      reads this, elements
    {
      capacity > 0 && elements.Length == capacity
    }

    ghost function Fields(): (q: Ring<T>)
      reads this, elements
    {
      Ring(capacity, dequeueIndex, queueIndex, elements[..])
    }

    constructor (capacity: Word)
      requires capacity > 0
      ensures Usable() && fresh(elements)
      ensures Fields() == Fresh(capacity, elements[..])
    {
      this.capacity := capacity;
      elements := new T[capacity];
      dequeueIndex, queueIndex := 0, 0;
    }

    /** Construction fails exactly for a zero capacity. */
    static method Construct(capacity: Word) returns (q: Queue?<T>)
      ensures q == null <==> capacity == 0
      ensures q != null ==> fresh(q) && q.Usable() && q.Fields() == Fresh(capacity, q.elements[..])
    {
      if capacity == 0 {
        return null;
      }
      q := new Queue(capacity);
    }

    method TryEnqueue(pointer: Option<T>) returns (ok: bool)
      requires Usable()
      modifies this`queueIndex, elements
      ensures Usable()
      ensures pointer.None? ==> !ok && Fields() == old(Fields())
      ensures pointer.Some? ==>
                (Fields(), if ok then Accepted else Refused) == Step(old(Fields()), Enqueue(pointer.value))
    {
      if pointer.None? {
        return false;
      }
      if Sub32(capacity, Sub32(queueIndex, dequeueIndex)) == 0 {
        return false;
      }
      elements[Slot(queueIndex, capacity)] := pointer.value;
      queueIndex := Add32(queueIndex, 1);
      ok := true;
    }

    method TryDequeue() returns (r: Option<T>)
      requires Usable()
      modifies this`dequeueIndex
      ensures Usable()
      ensures (Fields(), if r.Some? then Element(r.value) else Empty) == Step(old(Fields()), Dequeue)
    {
      if dequeueIndex == queueIndex {
        return None;
      }
      r := Some(elements[Slot(dequeueIndex, capacity)]);
      dequeueIndex := Add32(dequeueIndex, 1);
    }
  }
}
