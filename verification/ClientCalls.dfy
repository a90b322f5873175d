/**
  * The client's request/response correlation: the table of synchronous calls in the air, keyed by
  * 32-bit message ids, and the waiting on several of them. The table is a finite map, which is what
  * the runtime's hash table is. Links are abstract: sending succeeds or fails, and what arrives is
  * given as a sequence of events.
  */
module ClientCalls {
  import opened Machine
  import opened Options

  type Id = Word

  datatype Status = InProgress | Completed | Error

  /** `buffer` is the response, once it is there. */
  datatype Descriptor = Descriptor(status: Status, awaiter: Id, buffer: Option<nat>)

  type Table = map<Id, Descriptor>

  predicate Executed(s: Status)
  {
    s.Completed? || s.Error?
  }

  // ---------------------------------------------------------------- steps

  datatype Op =
    | Invoke(context: bool, sync: bool, sent: bool) // whether a context was given, and how the send went
    | Response(id: Id, data: nat)
    | ErrorEvent(id: Id)
    | Collect(id: Id)

  datatype Client = Client(nextId: Id, messages: Table)

  function NextId(id: Id): (r: Id)
  {
    if id + 1 == WORD then 0 else id + 1
  }

  const NewDescriptor: Descriptor := Descriptor(InProgress, 0, None)

  /** Whether an invocation leaves an entry behind. */
  predicate Recorded(op: Op)
  {
    op.Invoke? && op.context && op.sync && op.sent
  }

  function Step(c: Client, op: Op): (c': Client)
  {
    match op
    case Invoke(context, sync, sent) =>
      var added := if sync && context then c.messages[c.nextId := NewDescriptor] else c.messages;
      // a synchronous call without a context is given up before it is sent
      var kept := if sent || !context then added else added - {c.nextId};
      Client(NextId(c.nextId), kept)
    case Response(id, data) =>
      if id in c.messages
      then c.(messages := c.messages[id := c.messages[id].(status := Completed, buffer := Some(data))])
      else c
    case ErrorEvent(id) =>
      if id in c.messages then c.(messages := c.messages[id := c.messages[id].(status := Error)]) else c
    case Collect(id) => c.(messages := c.messages - {id})
  }

  function Run(c: Client, ops: seq<Op>): (c': Client)
    decreases |ops|
  {
    if ops == [] then c else Run(Step(c, ops[0]), ops[1..])
  }

  const Fresh: Client := Client(1, map[])

  // ---------------------------------------------------------------- calls as the program sees them

  /** A call, by its number in the order of invocation: never recorded, outstanding, or collected. */
  datatype Call = Unrecorded | Outstanding(status: Status, response: Option<nat>) | Collected

  /** The id of the `k`-th call. */
  function IdOf(k: nat): (id: Id)
  {
    (k + 1) % WORD
  }

  /** An outstanding call after an operation addressed to it; an error keeps the response there was. */
  function Addressed(call: Call, op: Op): (r: Call)
    requires call.Outstanding? && !op.Invoke?
  {
    match op
    case Response(_, data) => Outstanding(Completed, Some(data))
    case ErrorEvent(_) => call.(status := Error)
    case Collect(_) => Collected
  }

  /** What an operation does to the calls: it is addressed to the outstanding call with its id. */
  function CallStep(calls: seq<Call>, op: Op): (cs: seq<Call>)
  {
    if op.Invoke? then calls + [if Recorded(op) then Outstanding(InProgress, None) else Unrecorded]
    else
      seq(|calls|, k requires 0 <= k < |calls| =>
        if IdOf(k) == op.id && calls[k].Outstanding? then Addressed(calls[k], op) else calls[k])
  }

  function CallsAfter(calls: seq<Call>, ops: seq<Op>): (cs: seq<Call>)
    decreases |ops|
  {
    if ops == [] then calls else CallsAfter(CallStep(calls, ops[0]), ops[1..])
  }

  /** A descriptor as the program that made the call sees it. */
  predicate Shows(d: Descriptor, call: Call)
    requires call.Outstanding?
  {
    d.status == call.status && d.buffer == call.response
  }

  /** The table holds exactly the outstanding calls, with their statuses and responses. */
  ghost predicate Agrees(c: Client, calls: seq<Call>)
  {
    && (forall k | 0 <= k < |calls| && calls[k].Outstanding? ::
          IdOf(k) in c.messages && Shows(c.messages[IdOf(k)], calls[k]))
    && (forall id | id in c.messages :: exists k :: 0 <= k < |calls| && calls[k].Outstanding? && IdOf(k) == id)
  }

  ghost predicate Matches(c: Client, calls: seq<Call>)
  {
    c.nextId == IdOf(|calls|) && Agrees(c, calls)
  }

  /** Calls less than 2^32 apart have different ids. */
  lemma {:induction false} IdsDiffer(j: nat, k: nat)
    requires j < k < j + WORD
    ensures IdOf(j) != IdOf(k)
  {
  }

  lemma {:induction false} IdsUnique(n: nat)
    requires n <= WORD
    ensures forall j: nat, k: nat | j < n && k < n && IdOf(j) == IdOf(k) :: j == k
  {
    forall j: nat, k: nat | j < n && k < n && IdOf(j) == IdOf(k)
      ensures j == k
    {
      if j < k {
        IdsDiffer(j, k);
      } else if k < j {
        IdsDiffer(k, j);
      }
    }
  }

  lemma {:induction false} InvokeMatches(c: Client, calls: seq<Call>, op: Op)
    requires Matches(c, calls) && |calls| < WORD && op.Invoke?
    ensures Matches(Step(c, op), CallStep(calls, op))
  {
    var c', cs := Step(c, op), CallStep(calls, op);
    IdsUnique(|cs|);
    assert c.nextId !in c.messages;
    forall id | id in c'.messages
      ensures exists k :: 0 <= k < |cs| && cs[k].Outstanding? && IdOf(k) == id
    {
      if id in c.messages {
        var k :| 0 <= k < |calls| && calls[k].Outstanding? && IdOf(k) == id;
        assert cs[k].Outstanding?;
      } else {
        assert cs[|calls|].Outstanding?;
      }
    }
  }

  lemma {:induction false} EventMatches(c: Client, calls: seq<Call>, op: Op)
    requires Matches(c, calls) && !op.Invoke?
    ensures Matches(Step(c, op), CallStep(calls, op))
  {
    var c', cs := Step(c, op), CallStep(calls, op);
    forall id | id in c'.messages
      ensures exists k :: 0 <= k < |cs| && cs[k].Outstanding? && IdOf(k) == id
    {
      var k :| 0 <= k < |calls| && calls[k].Outstanding? && IdOf(k) == id;
      assert cs[k].Outstanding?;
    }
  }

  function Invocations(ops: seq<Op>): (n: nat)
    decreases |ops|
  {
    if ops == [] then 0 else (if ops[0].Invoke? then 1 else 0) + Invocations(ops[1..])
  }

  lemma {:induction false} RunMatchesFrom(c: Client, calls: seq<Call>, ops: seq<Op>)
    requires Matches(c, calls) && |calls| + Invocations(ops) <= WORD
    ensures Matches(Run(c, ops), CallsAfter(calls, ops))
    decreases |ops|
  {
    if ops != [] {
      if ops[0].Invoke? {
        InvokeMatches(c, calls, ops[0]);
      } else {
        EventMatches(c, calls, ops[0]);
      }
      RunMatchesFrom(Step(c, ops[0]), CallStep(calls, ops[0]), ops[1..]);
    }
  }

  /** In every run of up to 2^32 invocations the table holds exactly the sent synchronous calls not yet collected. */
  lemma {:induction false} RunMatches(ops: seq<Op>)
    requires Invocations(ops) <= WORD
    ensures Matches(Run(Fresh, ops), CallsAfter([], ops))
  {
    RunMatchesFrom(Fresh, [], ops);
  }

  /** Once executed, a call stays executed until it is collected, and collected for good. */
  lemma {:induction false} ExecutedStays(calls: seq<Call>, ops: seq<Op>, k: nat)
    requires k < |calls| && (calls[k].Collected? || (calls[k].Outstanding? && Executed(calls[k].status)))
    ensures k < |CallsAfter(calls, ops)|
    ensures var call := CallsAfter(calls, ops)[k];
            call.Collected? || (call.Outstanding? && Executed(call.status) && !calls[k].Collected?)
    decreases |ops|
  {
    if ops != [] {
      ExecutedStays(CallStep(calls, ops[0]), ops[1..], k);
    }
  }

  lemma {:induction false} CallsConcat(calls: seq<Call>, a: seq<Op>, b: seq<Op>)
    ensures CallsAfter(calls, a + b) == CallsAfter(CallsAfter(calls, a), b)
    decreases |a|
  {
    if a == [] {
      assert a + b == b;
    } else {
      assert (a + b)[0] == a[0] && (a + b)[1..] == a[1..] + b;
      CallsConcat(CallStep(calls, a[0]), a[1..], b);
    }
  }

  lemma {:induction false} InvocationsConcat(a: seq<Op>, b: seq<Op>)
    ensures Invocations(a + b) == Invocations(a) + Invocations(b)
    decreases |a|
  {
    if a == [] {
      assert a + b == b;
    } else {
      assert (a + b)[0] == a[0] && (a + b)[1..] == a[1..] + b;
      InvocationsConcat(a[1..], b);
    }
  }

  lemma {:induction false} CallsCounted(calls: seq<Call>, ops: seq<Op>)
    ensures |CallsAfter(calls, ops)| == |calls| + Invocations(ops)
    decreases |ops|
  {
    if ops != [] {
      CallsCounted(CallStep(calls, ops[0]), ops[1..]);
    }
  }

  /**
    * In the message table: once a call is executed, its entry is executed or gone after whatever
    * follows, as long as there are no more than 2^32 invocations in all.
    */
  lemma {:induction false} ExecutedStaysInTable(a: seq<Op>, b: seq<Op>, id: Id)
    requires Invocations(a + b) <= WORD
    requires id in Run(Fresh, a).messages && Executed(Run(Fresh, a).messages[id].status)
    ensures id in Run(Fresh, a + b).messages ==> Executed(Run(Fresh, a + b).messages[id].status)
  {
    var before, after := CallsAfter([], a), CallsAfter([], a + b);
    InvocationsConcat(a, b);
    RunMatches(a);
    RunMatches(a + b);
    CallsConcat([], a, b);
    CallsCounted([], a + b);
    var k :| 0 <= k < |before| && before[k].Outstanding? && IdOf(k) == id;
    ExecutedStays(before, b, k);
    if id in Run(Fresh, a + b).messages {
      var j :| 0 <= j < |after| && after[j].Outstanding? && IdOf(j) == id;
      IdsUnique(|after|);
      assert j == k;
    }
  }

  // ---------------------------------------------------------------- what became of a call

  /** The status that the events among `ops` leave a call with. */
  function LastStatus(ops: seq<Op>, id: Id): (s: Status)
  {
    if ops == [] then InProgress
    else
      match ops[|ops| - 1]
      case Response(i, _) => if i == id then Completed else LastStatus(ops[..|ops| - 1], id)
      case ErrorEvent(i) => if i == id then Error else LastStatus(ops[..|ops| - 1], id)
      case _ => LastStatus(ops[..|ops| - 1], id)
  }

  /** The data of the last response among `ops` with the id. */
  function LastResponse(ops: seq<Op>, id: Id): (r: Option<nat>)
  {
    if ops == [] then None
    else if ops[|ops| - 1].Response? && ops[|ops| - 1].id == id then Some(ops[|ops| - 1].data)
    else LastResponse(ops[..|ops| - 1], id)
  }

  lemma {:induction false} RunLast(c: Client, ops: seq<Op>, op: Op)
    ensures Run(c, ops + [op]) == Step(Run(c, ops), op)
    decreases |ops|
  {
    if ops == [] {
      assert ops + [op] == [op] && [op][1..] == [];
    } else {
      assert (ops + [op])[0] == ops[0] && (ops + [op])[1..] == ops[1..] + [op];
      RunLast(Step(c, ops[0]), ops[1..], op);
    }
  }

  /** The next id is that of the next call, and not in the table. */
  lemma {:induction false} NextIsNew(ops: seq<Op>)
    requires Invocations(ops) < WORD
    ensures var c := Run(Fresh, ops);
            c.nextId == IdOf(Invocations(ops)) && c.nextId !in c.messages
  {
    var calls := CallsAfter([], ops);
    RunMatches(ops);
    CallsCounted([], ops);
    IdsUnique(|calls| + 1);
  }

  /** What the table has on the call with the id, given what happened since. */
  ghost predicate Reflects(m: Table, id: Id, recorded: bool, since: seq<Op>)
  {
    && (id in m <==> recorded && Collect(id) !in since)
    && (id in m ==> m[id] == Descriptor(LastStatus(since, id), 0, LastResponse(since, id)))
  }

  lemma {:induction false} StepReflects(c: Client, id: Id, recorded: bool, since: seq<Op>, op: Op)
    requires Reflects(c.messages, id, recorded, since) && (op.Invoke? ==> c.nextId != id)
    ensures Reflects(Step(c, op).messages, id, recorded, since + [op])
  {
    var after := since + [op];
    assert after[|after| - 1] == op && after[..|after| - 1] == since;
    assert Collect(id) in after <==> Collect(id) in since || op == Collect(id);
  }

  /**
    * In every run of at most 2^32 invocations: a call is in the table exactly when it was synchronous, had
    * a context, was sent and has not been collected since; its status is that of the last event with its
    * id since then, and its data that of the last response.
    */
  lemma {:induction false} CallOutcome(before: seq<Op>, call: Op, after: seq<Op>)
    requires call.Invoke? && Invocations(before + ([call] + after)) <= WORD
    ensures Reflects(Run(Fresh, before + ([call] + after)).messages, IdOf(Invocations(before)), Recorded(call), after)
    decreases |after|
  {
    var id := IdOf(Invocations(before));
    InvocationsConcat(before, [call] + after);
    InvocationsConcat([call], after);
    assert [call][1..] == [];
    if after == [] {
      assert before + ([call] + after) == before + [call];
      RunLast(Fresh, before, call);
      NextIsNew(before);
    } else {
      var front, op := after[..|after| - 1], after[|after| - 1];
      var ops := before + ([call] + front);
      assert after == front + [op] && before + ([call] + after) == ops + [op];
      InvocationsConcat(ops, [op]);
      assert [op][1..] == [];
      RunLast(Fresh, ops, op);
      CallOutcome(before, call, front);
      if op.Invoke? {
        NextIsNew(ops);
        InvocationsConcat(before, [call] + front);
        InvocationsConcat([call], front);
        IdsDiffer(Invocations(before), Invocations(ops));
      }
      StepReflects(Run(Fresh, ops), id, Recorded(call), front, op);
    }
  }

  // ---------------------------------------------------------------- one invocation too many

  function Quiet(n: nat): (ops: seq<Op>)
  {
    seq(n, _ => Invoke(false, false, true))
  }

  lemma {:induction false} QuietRun(c: Client, n: nat, rest: seq<Op>)
    ensures Run(c, Quiet(n) + rest) == Run(Client((c.nextId + n) % WORD, c.messages), rest)
    decreases n
  {
    var ops := Quiet(n) + rest;
    if n == 0 {
      assert ops == rest;
    } else {
      assert ops[0] == Invoke(false, false, true) && ops[1..] == Quiet(n - 1) + rest;
      QuietRun(Step(c, ops[0]), n - 1, rest);
    }
  }

  /**
    * The bound is sharp: 2^32 invocations after a call its id is used again, and the call that was
    * completed is in progress once more, although nobody collected it.
    */
  lemma {:induction false} OneTooMany()
    ensures var first := [Invoke(true, true, true), Response(1, 0)];
            var ops := first + (Quiet(WORD - 1) + [Invoke(true, true, true)]);
            && 1 in Run(Fresh, first).messages && Run(Fresh, first).messages[1].status == Completed
            && 1 in Run(Fresh, ops).messages && Run(Fresh, ops).messages[1].status == InProgress
  {
    var call, response := Invoke(true, true, true), Response(1, 0);
    var first, last := [call, response], [call];
    var rest := Quiet(WORD - 1) + last;
    var c1 := Step(Fresh, call);
    var c2 := Step(c1, response);
    assert c2.nextId == 2 && c2.messages[1].status == Completed;
    assert first[1..] == [response] && [response][1..] == [];
    assert Run(Fresh, first) == Run(c1, [response]) == Run(c2, []) == c2;
    var ops := first + rest;
    assert ops[0] == call && ops[1..] == [response] + rest;
    assert ([response] + rest)[1..] == rest;
    assert Run(Fresh, ops) == Run(c1, [response] + rest) == Run(c2, rest);
    QuietRun(c2, WORD - 1, last);
    var c3 := Client(1, c2.messages);
    assert last[1..] == [];
    assert Run(c3, last) == Step(c3, call);
  }

  lemma {:induction false} QuietCalls(calls: seq<Call>, n: nat, rest: seq<Op>)
    ensures CallsAfter(calls, Quiet(n) + rest) == CallsAfter(calls + seq(n, _ => Unrecorded), rest)
    ensures Invocations(Quiet(n) + rest) == n + Invocations(rest)
    decreases n
  {
    var ops := Quiet(n) + rest;
    if n == 0 {
      assert ops == rest && calls + seq(n, _ => Unrecorded) == calls;
    } else {
      assert ops[0] == Invoke(false, false, true) && ops[1..] == Quiet(n - 1) + rest;
      QuietCalls(calls + [Unrecorded], n - 1, rest);
      assert calls + [Unrecorded] + seq(n - 1, _ => Unrecorded) == calls + seq(n, _ => Unrecorded);
    }
  }

  /** The run of `OneTooMany`: a call completed, then 2^32 invocations. */
  ghost function Overrun(): (ops: seq<Op>)
  {
    [Invoke(true, true, true), Response(1, 0)] + (Quiet(WORD - 1) + [Invoke(true, true, true)])
  }

  /** The calls of that run: the first is completed, the last, with the same id, in progress. */
  lemma {:induction false} OverrunCalls()
    ensures Invocations(Overrun()) == WORD + 1
    ensures var cs := CallsAfter([], Overrun());
            |cs| == WORD + 1 && cs[0] == Outstanding(Completed, Some(0)) && IdOf(0) == 1
  {
    var call, response := Invoke(true, true, true), Response(1, 0);
    var last := [call];
    var rest := Quiet(WORD - 1) + last;
    var ops := Overrun();
    assert ops[0] == call && ops[1..] == [response] + rest && ([response] + rest)[1..] == rest;
    var c1 := CallStep([], call);
    assert c1 == [Outstanding(InProgress, None)];
    var c2 := CallStep(c1, response);
    assert c2 == [Outstanding(Completed, Some(0))];
    QuietCalls(c2, WORD - 1, last);
    var c3 := c2 + seq(WORD - 1, _ => Unrecorded);
    assert last[1..] == [];
    assert CallsAfter([], ops) == CallsAfter(c1, [response] + rest) == CallsAfter(c2, rest) == CallsAfter(c3, last);
    var c4 := c3 + [Outstanding(InProgress, None)];
    assert CallsAfter(c3, last) == CallsAfter(c4, []) == c4;
    assert Invocations(ops) == 1 + Invocations([response] + rest) == 1 + Invocations(rest);
    assert Invocations(last) == 1;
  }

  /** Table and calls correspond in every run of at most `n` invocations if and only if `n` is at most 2^32. */
  lemma {:induction false} RunMatchesExactly(n: nat)
    ensures (forall ops: seq<Op> | Invocations(ops) <= n :: Matches(Run(Fresh, ops), CallsAfter([], ops)))
            <==> n <= WORD
  {
    if n <= WORD {
      forall ops: seq<Op> | Invocations(ops) <= n
        ensures Matches(Run(Fresh, ops), CallsAfter([], ops))
      {
        RunMatches(ops);
      }
    } else {
      OneTooMany();
      OverrunCalls();
      assert Invocations(Overrun()) <= n && !Matches(Run(Fresh, Overrun()), CallsAfter([], Overrun()));
    }
  }
}
