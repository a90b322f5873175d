/** The client object: invoking, receiving, collecting, and waiting for several calls at once. */
module ClientAwait {
  import opened ClientCalls
  import opened Machine
  import opened Options

  /** What the link delivers next. */
  datatype Event = ResponseArrived(id: Id, data: nat) | ErrorArrived(id: Id) | EventArrived | ReceiveFailed

  datatype AwaitResult = Invalid | Returned | Blocked

  /** A call that needs no more waiting: executed, or not in the table. */
  predicate Done(m: Table, id: Id)
  {
    id in m ==> Executed(m[id].status)
  }

  function CountDone(m: Table, ids: seq<Id>): (n: nat)
    ensures n <= |ids|
  {
    if ids == [] then 0
    else CountDone(m, ids[..|ids| - 1]) + (if Done(m, ids[|ids| - 1]) then 1 else 0)
  }

  lemma {:induction false} CountDoneAll(m: Table, ids: seq<Id>)
    ensures CountDone(m, ids) == |ids| <==> forall i | 0 <= i < |ids| :: Done(m, ids[i])
    ensures CountDone(m, ids) > 0 <==> exists i :: 0 <= i < |ids| && Done(m, ids[i])
    decreases |ids|
  {
    if ids != [] {
      var n := |ids| - 1;
      CountDoneAll(m, ids[..n]);
      if CountDone(m, ids[..n]) > 0 {
        var i :| 0 <= i < n && Done(m, ids[..n][i]);
        assert Done(m, ids[i]);
      }
      if exists i :: 0 <= i < |ids| && Done(m, ids[i]) {
        var i :| 0 <= i < |ids| && Done(m, ids[i]);
        assert i < n ==> Done(m, ids[..n][i]);
      }
    }
  }

  /** The effect of an event on the table. */
  function Arrive(m: Table, e: Event): (m': Table)
  {
    match e
    case ResponseArrived(id, data) => Step(Client(0, m), Response(id, data)).messages
    case ErrorArrived(id) => Step(Client(0, m), ErrorEvent(id)).messages
    case _ => m
  }

  function ArriveAll(m: Table, es: seq<Event>): (m': Table)
    decreases |es|
  {
    if es == [] then m else Arrive(ArriveAll(m, es[..|es| - 1]), es[|es| - 1])
  }

  lemma {:induction false} ArriveConcat(m: Table, a: seq<Event>, b: seq<Event>)
    ensures ArriveAll(m, a + b) == ArriveAll(ArriveAll(m, a), b)
    decreases |b|
  {
    if b == [] {
      assert a + b == a;
    } else {
      var n := |b| - 1;
      assert (a + b)[..|a| + n] == a + b[..n];
      ArriveConcat(m, a, b[..n]);
    }
  }

  ghost predicate AllDone(m: Table, ids: seq<Id>)
  {
    forall i | 0 <= i < |ids| :: Done(m, ids[i])
  }

  /** Whatever arrives, a call that needs no waiting goes on needing none. */
  lemma {:induction false} ArriveKeepsDone(m: Table, es: seq<Event>, id: Id)
    requires Done(m, id)
    ensures Done(ArriveAll(m, es), id)
    decreases |es|
  {
    if es != [] {
      ArriveKeepsDone(m, es[..|es| - 1], id);
    }
  }

  /** Once all are done they stay so, whatever else arrives. */
  lemma {:induction false} ArriveKeepsAllDone(m: Table, es: seq<Event>, n: nat, ids: seq<Id>)
    requires n <= |es| && AllDone(ArriveAll(m, es[..n]), ids)
    ensures AllDone(ArriveAll(m, es), ids)
  {
    assert es == es[..n] + es[n..];
    ArriveConcat(m, es[..n], es[n..]);
    forall i | 0 <= i < |ids|
      ensures Done(ArriveAll(m, es), ids[i])
    {
      ArriveKeepsDone(ArriveAll(m, es[..n]), es[n..], ids[i]);
    }
  }

  /** Whether the receiving loop ends with an event: only responses nobody waits for are dropped. */
  predicate Handled(m: Table, e: Event)
  {
    e.ResponseArrived? ==> e.id in m
  }

  /** Events that are dropped leave the table as it is. */
  lemma {:induction false} DroppedEvents(m: Table, es: seq<Event>)
    requires forall k | 0 <= k < |es| :: !Handled(m, es[k])
    ensures ArriveAll(m, es) == m
    decreases |es|
  {
    if es != [] {
      DroppedEvents(m, es[..|es| - 1]);
    }
  }

  /** The table with the awaiter noted on one call, or on the first `n` of several. */
  function Tag(m: Table, id: Id, awaiter: Id): (m': Table)
  {
    if id in m then m[id := m[id].(awaiter := awaiter)] else m
  }

  function TagAll(m: Table, ids: seq<Id>, awaiter: Id): (m': Table)
    decreases |ids|
  {
    if ids == [] then m else Tag(TagAll(m, ids[..|ids| - 1], awaiter), ids[|ids| - 1], awaiter)
  }

  /** Noting an awaiter changes neither which calls there are nor their status. */
  lemma {:induction false} TagKeepsDone(m: Table, ids: seq<Id>, awaiter: Id, id: Id)
    ensures TagAll(m, ids, awaiter).Keys == m.Keys
    ensures Done(TagAll(m, ids, awaiter), id) == Done(m, id)
    decreases |ids|
  {
    if ids != [] {
      TagKeepsDone(m, ids[..|ids| - 1], awaiter, id);
    }
  }

  lemma {:induction false} TagKeepsCount(m: Table, tags: seq<Id>, awaiter: Id, ids: seq<Id>)
    ensures CountDone(TagAll(m, tags, awaiter), ids) == CountDone(m, ids)
    decreases |ids|
  {
    if ids != [] {
      TagKeepsCount(m, tags, awaiter, ids[..|ids| - 1]);
      TagKeepsDone(m, tags, awaiter, ids[|ids| - 1]);
    }
  }

  /** The awaited calls are noted with the awaiter, and nothing else changes. */
  lemma {:induction false} TagExactly(m: Table, ids: seq<Id>, awaiter: Id)
    ensures TagAll(m, ids, awaiter) == map id | id in m :: if id in ids then m[id].(awaiter := awaiter) else m[id]
    decreases |ids|
  {
    if ids != [] {
      TagExactly(m, ids[..|ids| - 1], awaiter);
    }
  }

  /** The awaiters' counts after a call noted with `awaiter` was executed. */
  function Marked(awaiters: map<Id, nat>, awaiter: Id): (a: map<Id, nat>)
    ensures a.Keys == awaiters.Keys
  {
    if awaiter in awaiters then awaiters[awaiter := awaiters[awaiter] + 1] else awaiters
  }

  /** The awaiter to count for an event: the one noted on the call it executes. */
  function MarkedBy(awaiters: map<Id, nat>, m: Table, e: Event): (a: map<Id, nat>)
  {
    if (e.ResponseArrived? || e.ErrorArrived?) && e.id in m then Marked(awaiters, m[e.id].awaiter) else awaiters
  }

  class MessageClient {
    var nextId: Id
    var nextAwaiterId: Id
    var messages: Table
    var awaiters: map<Id, nat> // the current count of each awaiter

    ghost function Fields(): (c: Client)
      reads this
    {
      Client(nextId, messages)
    }

    constructor ()
      ensures Fields() == Client(1, map[]) && awaiters == map[] && nextAwaiterId == 1
    {
      nextId, nextAwaiterId, messages, awaiters := 1, 1, map[], map[];
    }

    /** Sends a call; `id` is what the context receives. */
    method InvokeCall(context: bool, sync: bool, sent: bool) returns (ok: bool, id: Id)
      modifies this`nextId, this`messages
      ensures Fields() == Step(old(Fields()), Invoke(context, sync, sent))
      ensures id == old(nextId)
      ensures ok <==> sent && (sync ==> context)
    {
      id := nextId;
      nextId := if nextId + 1 == WORD then 0 else nextId + 1;
      if sync {
        if !context {
          return false, id;
        }
        messages := messages[id := Descriptor(InProgress, 0, None)];
      }
      if !sent {
        if context {
          messages := messages - {id};
        }
        return false, id;
      }
      return true, id;
    }

    /** One more call of the awaiter is executed, if it still waits. */
    method MarkAwaiters(awaiter: Id)
      modifies this`awaiters
      ensures awaiters == Marked(old(awaiters), awaiter)
      ensures awaiter in old(awaiters) ==> awaiters == old(awaiters)[awaiter := old(awaiters)[awaiter] + 1]
    {
      if awaiter in awaiters {
        awaiters := awaiters[awaiter := awaiters[awaiter] + 1];
      }
    }

    /** Completes the call with the response's id, if it is in the table, and keeps the data for it. */
    method HandleResponse(id: Id, data: nat) returns (handled: bool)
      modifies this`messages, this`awaiters
      ensures handled <==> id in old(messages)
      ensures messages == if id in old(messages)
                          then old(messages)[id := Descriptor(Completed, old(messages)[id].awaiter, Some(data))]
                          else old(messages)
      ensures messages == Arrive(old(messages), ResponseArrived(id, data))
      ensures awaiters == MarkedBy(old(awaiters), old(messages), ResponseArrived(id, data))
    {
      if id !in messages {
        return false;
      }
      messages := messages[id := messages[id].(status := Completed, buffer := Some(data))];
      MarkAwaiters(messages[id].awaiter);
      return true;
    }

    /** Marks the call failed, if it is in the table; a response that it got before stays with it. */
    method HandleError(id: Id)
      modifies this`messages, this`awaiters
      ensures messages == if id !in old(messages) then old(messages) else
                            var d := old(messages)[id];
                            old(messages)[id := Descriptor(Error, d.awaiter, d.buffer)]
      ensures messages == Arrive(old(messages), ErrorArrived(id))
      ensures awaiters == MarkedBy(old(awaiters), old(messages), ErrorArrived(id))
    {
      if id in messages {
        messages := messages[id := messages[id].(status := Error)];
        MarkAwaiters(messages[id].awaiter);
      }
    }

    /** Takes the call out of the table: its descriptor, or nothing exactly when it is not there. */
    method CollectCall(id: Id) returns (r: Option<Descriptor>)
      modifies this`messages
      ensures Fields() == Step(old(Fields()), Collect(id))
      ensures r == if id in old(messages) then Some(old(messages)[id]) else None
    {
      if id in messages {
        r := Some(messages[id]);
        messages := messages - {id};
      } else {
        r := None;
        assert messages == messages - {id};
      }
    }

    /** Receives up to the first event that is handled; a response nobody waits for is dropped. */
    method WaitMessage(incoming: seq<Event>) returns (received: bool, n: nat)
      modifies this`messages, this`awaiters
      ensures received <==> exists k :: 0 <= k < |incoming| && Handled(old(messages), incoming[k])
      ensures received ==>
                && 0 < n <= |incoming| && Handled(old(messages), incoming[n - 1])
                && (forall k | 0 <= k < n - 1 :: !Handled(old(messages), incoming[k]))
                && messages == Arrive(old(messages), incoming[n - 1])
                && awaiters == MarkedBy(old(awaiters), old(messages), incoming[n - 1])
      ensures !received ==> n == |incoming| && messages == old(messages) && awaiters == old(awaiters)
      ensures awaiters.Keys == old(awaiters.Keys)
    {
      n := 0;
      while n < |incoming|
        invariant n <= |incoming| && messages == old(messages) && awaiters == old(awaiters)
        invariant forall k | 0 <= k < n :: !Handled(old(messages), incoming[k])
      {
        var e := incoming[n];
        n := n + 1;
        match e {
          case ResponseArrived(id, data) =>
            var handled := HandleResponse(id, data);
            if handled {
              return true, n;
            }
          case ErrorArrived(id) =>
            HandleError(id);
            return true, n;
          case EventArrived =>
            return true, n;
          case ReceiveFailed =>
            return true, n;
        }
      }
      return false, n;
    }

    /** Recounts the awaited calls that are executed or absent. */
    method Recount(ids: seq<Id>) returns (count: nat)
      ensures count == CountDone(messages, ids)
    {
      count := 0;
      for i := 0 to |ids|
        invariant count == CountDone(messages, ids[..i])
      {
        assert ids[..i + 1][..i] == ids[..i];
        if ids[i] !in messages || Executed(messages[ids[i]].status) {
          count := count + 1;
        }
      }
      assert ids[..|ids|] == ids;
    }

    /** Notes the awaiter on every awaited call and counts those that need no waiting. */
    method Enlist(ids: seq<Id>, awaiter: Id) returns (count: nat)
      modifies this`messages
      ensures messages == TagAll(old(messages), ids, awaiter)
      ensures count == CountDone(old(messages), ids)
    {
      ghost var m := messages;
      count := 0;
      for i := 0 to |ids|
        invariant messages == TagAll(m, ids[..i], awaiter)
        invariant count == CountDone(m, ids[..i])
      {
        assert ids[..i + 1][..i] == ids[..i];
        TagKeepsDone(m, ids[..i], awaiter, ids[i]);
        if ids[i] !in messages {
          count := count + 1;
        } else {
          messages := messages[ids[i] := messages[ids[i]].(awaiter := awaiter)];
          if Executed(messages[ids[i]].status) {
            count := count + 1;
          }
        }
      }
      assert ids[..|ids|] == ids;
    }

    /** One turn of the waiting loop: a message is received, and the count brought up to date. */
    method Pump(ids: seq<Id>, awaiter: Id, incoming: seq<Event>) returns (received: bool, n: nat)
      requires awaiter in awaiters && awaiters[awaiter] == CountDone(messages, ids) < |ids|
      modifies this`messages, this`awaiters
      ensures n <= |incoming| && awaiters.Keys == old(awaiters.Keys)
      ensures messages == ArriveAll(old(messages), incoming[..n])
      ensures awaiters[awaiter] == CountDone(messages, ids)
      ensures forall k | 0 <= k < n :: !AllDone(ArriveAll(old(messages), incoming[..k]), ids)
      ensures if received then n > 0 else n == |incoming| && messages == old(messages)
    {
      ghost var m := messages;
      received, n := WaitMessage(incoming);
      ghost var dropped := if received then n - 1 else n;
      CountDoneAll(m, ids);
      forall k | 0 <= k <= dropped
        ensures ArriveAll(m, incoming[..k]) == m
      {
        DroppedEvents(m, incoming[..k]);
      }
      if received {
        assert incoming[..n][..n - 1] == incoming[..n - 1];
        var recount := Recount(ids);
        awaiters := awaiters[awaiter := recount];
      }
    }

    /** The waiting loop: it ends at the first moment when all are done. */
    method AwaitLoop(ids: seq<Id>, awaiter: Id, incoming: seq<Event>) returns (returned: bool, n: nat)
      requires awaiter in awaiters && awaiters[awaiter] == CountDone(messages, ids)
      modifies this`messages, this`awaiters
      ensures n <= |incoming| && awaiters.Keys == old(awaiters.Keys)
      ensures messages == ArriveAll(old(messages), incoming[..n])
      ensures returned <==> AllDone(messages, ids)
      ensures !returned ==> n == |incoming|
      ensures forall k | 0 <= k < n :: !AllDone(ArriveAll(old(messages), incoming[..k]), ids)
    {
      n := 0;
      ghost var m := messages;
      assert incoming[..0] == [];
      while awaiters[awaiter] < |ids|
        invariant n <= |incoming| && awaiters.Keys == old(awaiters.Keys)
        invariant messages == ArriveAll(m, incoming[..n]) && awaiters[awaiter] == CountDone(messages, ids)
        invariant forall k | 0 <= k < n :: !AllDone(ArriveAll(m, incoming[..k]), ids)
        decreases |incoming| - n
      {
        var received, k := Pump(ids, awaiter, incoming[n..]);
        PumpExtends(m, incoming, n, k, ids);
        n := n + k;
        if !received {
          CountDoneAll(messages, ids);
          return false, n;
        }
      }
      CountDoneAll(messages, ids);
      return true, n;
    }

    /**
      * Waits by pumping messages. Unless it was asked for any and found one executed or absent at the
      * start, it returns, for any as for all, exactly when the last of the awaited calls is.
      */
    method AwaitMultiple(ids: seq<Id>, all: bool, incoming: seq<Event>) returns (r: AwaitResult, n: nat)
      modifies this
      ensures r == Invalid <==> ids == []
      ensures n <= |incoming| && nextId == old(nextId)
      ensures nextAwaiterId == if r == Invalid then old(nextAwaiterId) else NextId(old(nextAwaiterId))
      ensures r == Invalid ==> messages == old(messages) && awaiters == old(awaiters) && n == 0
      ensures r != Invalid ==> messages == ArriveAll(TagAll(old(messages), ids, old(nextAwaiterId)), incoming[..n])
      // found at the start
      ensures r != Invalid && AtOnce(old(messages), ids, all) ==>
                r == Returned && n == 0 && awaiters == old(awaiters)
      // otherwise at the first moment when all are done, and not before
      ensures r != Invalid && !AtOnce(old(messages), ids, all) ==>
                && (r == Returned <==> AllDone(messages, ids))
                && (r == Blocked ==> n == |incoming|)
                && (forall k | 0 <= k < n ::
                      !AllDone(ArriveAll(TagAll(old(messages), ids, old(nextAwaiterId)), incoming[..k]), ids))
      ensures r == Returned && old(nextAwaiterId) !in old(awaiters) ==> awaiters.Keys == old(awaiters.Keys)
    {
      n := 0;
      if ids == [] {
        return Invalid, 0;
      }
      var awaiter := nextAwaiterId;
      nextAwaiterId := NextId(nextAwaiterId);
      var count := Enlist(ids, awaiter);
      TagKeepsCount(old(messages), ids, awaiter, ids);
      CountDoneAll(old(messages), ids);
      assert incoming[..0] == [];
      if (!all && count > 0) || count == |ids| {
        return Returned, 0;
      }
      awaiters := awaiters[awaiter := count];
      var returned;
      returned, n := AwaitLoop(ids, awaiter, incoming);
      if !returned {
        return Blocked, n;
      }
      awaiters := awaiters - {awaiter};
      return Returned, n;
    }
  }

  /** One operation of a run, on the object. */
  method Perform(client: MessageClient, op: Op)
    modifies client
    ensures client.Fields() == Step(old(client.Fields()), op)
  {
    match op {
      case Invoke(context, sync, sent) => var _, _ := client.InvokeCall(context, sync, sent);
      case Response(id, data) => var _ := client.HandleResponse(id, data);
      case ErrorEvent(id) => client.HandleError(id);
      case Collect(id) => var _ := client.CollectCall(id);
    }
  }

  /**
    * A new client makes some calls, then the one in question, and after whatever happens collects it: it gets
    * the status of the last event and the data of the last response since the call, or nothing exactly
    * when the call left no entry or was collected before.
    */
  method CollectAfter(before: seq<Op>, call: Op, after: seq<Op>) returns (r: Option<Descriptor>)
    requires call.Invoke? && Invocations(before + ([call] + after)) <= WORD
    ensures var id := IdOf(Invocations(before));
            r == if Recorded(call) && Collect(id) !in after
                 then Some(Descriptor(LastStatus(after, id), 0, LastResponse(after, id))) else None
  {
    var client := new MessageClient();
    var ops := before + ([call] + after);
    assert ops[0..] == ops;
    for i := 0 to |ops|
      invariant fresh(client) && Run(client.Fields(), ops[i..]) == Run(Fresh, ops)
    {
      assert ops[i..][0] == ops[i] && ops[i..][1..] == ops[i + 1..];
      Perform(client, ops[i]);
    }
    CallOutcome(before, call, after);
    r := client.CollectCall((Invocations(before) + 1) % WORD);
  }

  /** The outcome of a wait is settled by what arrives: it returns if and only if all get done. */
  lemma {:induction false} ReturnsExactly(m: Table, ids: seq<Id>, es: seq<Event>)
    ensures (exists n :: 0 <= n <= |es| && AllDone(ArriveAll(m, es[..n]), ids)) <==> AllDone(ArriveAll(m, es), ids)
  {
    assert es[..|es|] == es;
    if exists n :: 0 <= n <= |es| && AllDone(ArriveAll(m, es[..n]), ids) {
      var n :| 0 <= n <= |es| && AllDone(ArriveAll(m, es[..n]), ids);
      ArriveKeepsAllDone(m, es, n, ids);
    }
  }

  /** What makes a wait return at once: all are done, or any is and any was asked for. */
  ghost predicate AtOnce(m: Table, ids: seq<Id>, all: bool)
  {
    AllDone(m, ids) || (!all && exists i :: 0 <= i < |ids| && Done(m, ids[i]))
  }

  /** A stretch of events seen from the start of the wait. */
  lemma {:induction false} PumpExtends(m: Table, es: seq<Event>, n: nat, k: nat, ids: seq<Id>)
    requires n + k <= |es|
    requires forall j | 0 <= j < n :: !AllDone(ArriveAll(m, es[..j]), ids)
    requires forall j | 0 <= j < k :: !AllDone(ArriveAll(ArriveAll(m, es[..n]), es[n..][..j]), ids)
    ensures ArriveAll(m, es[..n + k]) == ArriveAll(ArriveAll(m, es[..n]), es[n..][..k])
    ensures forall j | 0 <= j < n + k :: !AllDone(ArriveAll(m, es[..j]), ids)
  {
    forall j | 0 <= j <= k
      ensures ArriveAll(m, es[..n + j]) == ArriveAll(ArriveAll(m, es[..n]), es[n..][..j])
    {
      assert es[..n + j] == es[..n] + es[n..][..j];
      ArriveConcat(m, es[..n], es[n..][..j]);
    }
    forall j | 0 <= j < n + k
      ensures !AllDone(ArriveAll(m, es[..j]), ids)
    {
      if j >= n {
        assert es[..j] == es[..n + (j - n)];
        assert !AllDone(ArriveAll(ArriveAll(m, es[..n]), es[n..][..j - n]), ids);
      }
    }
  }

  /** Asked for any of two calls, with the response to one of them there, the wait still blocks. */
  method AnyOfTwoBlocks() returns (r: AwaitResult, first: bool)
    ensures r == Blocked && first
  {
    var client := new MessageClient();
    var _, a := client.InvokeCall(true, true, true);
    var _, b := client.InvokeCall(true, true, true);
    assert !Done(client.messages, a) && !Done(client.messages, b);
    ghost var awaiter := client.nextAwaiterId;
    ghost var tagged := TagAll(client.messages, [a, b], awaiter);
    TagKeepsDone(client.messages, [a, b], awaiter, a);
    TagKeepsDone(client.messages, [a, b], awaiter, b);
    var incoming := [ResponseArrived(a, 0)];
    var n;
    assert [a, b][0] == a && [a, b][1] == b;
    r, n := client.AwaitMultiple([a, b], false, incoming);
    assert incoming[..0] == [] && incoming[..1] == incoming;
    assert ArriveAll(tagged, incoming) == Arrive(tagged, incoming[0]);
    assert !Done(tagged, [a, b][0]) && !Done(ArriveAll(tagged, incoming), [a, b][1]);
    first := a in client.messages && client.messages[a].status == Completed;
  }
}
