/**
  * The server's clients and their event subscriptions: a bit set of eight 32-bit words for each
  * client, and the broadcast that goes to the clients whose set holds the protocol.
  */
module Subscriptions {
  import HashTable
  import opened Machine
  import opened RobinHood

  type Handle = int

  /** A protocol number; 0xFF stands for all of them when subscribing and unsubscribing. */
  type Protocol = Byte

  const ALL: Protocol := 0xFF

  // ---------------------------------------------------------------- words

  /** One of the 32-bit words of a client's subscriptions. */
  type Block32 = w: Bits | |w| == 32 witness seq(32, _ => false)

  function And(a: Block32, b: Block32): (r: Block32)
  {
    seq(32, i requires 0 <= i < 32 => a[i] && b[i])
  }

  function Or(a: Block32, b: Block32): (r: Block32)
  {
    seq(32, i requires 0 <= i < 32 => a[i] || b[i])
  }

  function Not(a: Block32): (r: Block32)
  {
    seq(32, i requires 0 <= i < 32 => !a[i])
  }

  /** `1 << n`. */
  function Mask(n: nat): (r: Block32)
    requires n < 32
  {
    seq(32, i => i == n)
  }

  predicate NonZero(w: Block32)
  {
    exists i :: 0 <= i < 32 && w[i]
  }

  // ---------------------------------------------------------------- the bit set

  type Words = ws: seq<Block32> | |ws| == 8 witness seq(8, _ => seq(32, _ => false))

  function Block(id: Protocol): (b: nat)
    ensures b < 8
  {
    id / 32
  }

  function Offset(id: Protocol): (i: nat)
    ensures i < 32
  {
    id % 32
  }

  predicate IsSubscribed(ws: Words, id: Protocol)
  {
    NonZero(And(ws[Block(id)], Mask(Offset(id))))
  }

  function Filled(bit: bool): (ws: Words)
  {
    seq(8, _ => seq(32, _ => bit))
  }

  function WithSubscription(ws: Words, id: Protocol): (r: Words)
  {
    if id == ALL then Filled(true) else ws[Block(id) := Or(ws[Block(id)], Mask(Offset(id)))]
  }

  function WithoutSubscription(ws: Words, id: Protocol): (r: Words)
  {
    if id == ALL then Filled(false) else ws[Block(id) := And(ws[Block(id)], Not(Mask(Offset(id))))]
  }

  lemma {:induction false} TestsOneBit(ws: Words, id: Protocol)
    ensures IsSubscribed(ws, id) <==> ws[id / 32][id % 32]
  {
    assert And(ws[Block(id)], Mask(Offset(id)))[Offset(id)] == ws[Block(id)][Offset(id)];
  }

  /** An id is determined by its word and its bit in the word. */
  lemma {:induction false} BlockAndOffset(i: Protocol, j: Protocol)
    ensures i == j <==> Block(i) == Block(j) && Offset(i) == Offset(j)
  {
  }

  /** The ids whose bit is set. */
  ghost function SetOf(ws: Words): (ids: set<Protocol>)
  {
    set id: Protocol | id < 256 && IsSubscribed(ws, id)
  }

  ghost function AllProtocols(): (ids: set<Protocol>)
  {
    set id: Protocol | id < 256 && Block(id) < 8
  }

  /** Setting and clearing a bit adds and removes one id, and 0xFF adds and removes them all. */
  lemma {:induction false} BitSetIsSet(ws: Words, id: Protocol)
    ensures SetOf(WithSubscription(ws, id)) == if id == 0xFF then AllProtocols() else SetOf(ws) + {id}
    ensures SetOf(WithoutSubscription(ws, id)) == if id == 0xFF then {} else SetOf(ws) - {id}
  {
    forall j: Protocol
      ensures IsSubscribed(WithSubscription(ws, id), j) <==> id == ALL || j == id || IsSubscribed(ws, j)
      ensures IsSubscribed(WithoutSubscription(ws, id), j) <==> id != ALL && j != id && IsSubscribed(ws, j)
    {
      TestsOneBit(ws, j);
      TestsOneBit(WithSubscription(ws, id), j);
      TestsOneBit(WithoutSubscription(ws, id), j);
      BlockAndOffset(id, j);
    }
  }

  lemma {:induction false} FilledIsAll()
    ensures SetOf(Filled(true)) == AllProtocols() && SetOf(Filled(false)) == {}
  {
    BitSetIsSet(Filled(false), ALL);
  }

  // ---------------------------------------------------------------- clients

  datatype ClientRecord = ClientRecord(link: nat, stream: bool, cleanup: bool, words: Words)

  type Clients = map<Handle, ClientRecord>

  datatype Op =
    | Connect(handle: Handle, link: nat)
    | Subscribe(handle: Handle, link: nat, created: bool, id: Protocol) // whether a record could be made
    | Unsubscribe(handle: Handle, id: Protocol)
    | Disconnect(handle: Handle)

  function Step(cs: Clients, op: Op): (cs': Clients)
  {
    match op
    case Connect(h, link) => cs[h := ClientRecord(link, true, false, Filled(true))]
    case Subscribe(h, link, created, id) =>
      if h in cs then cs[h := cs[h].(cleanup := false, words := WithSubscription(cs[h].words, id))]
      else if created then cs[h := ClientRecord(link, false, false, WithSubscription(Filled(false), id))]
      else cs
    case Unsubscribe(h, id) =>
      if h !in cs then cs
      else if id == ALL && !cs[h].stream then cs - {h}
      else cs[h := cs[h].(words := WithoutSubscription(cs[h].words, id))]
    case Disconnect(h) => cs - {h}
  }

  function Run(cs: Clients, ops: seq<Op>): (cs': Clients)
    decreases |ops|
  {
    if ops == [] then cs else Run(Step(cs, ops[0]), ops[1..])
  }

  /** A client as an observer sees it: its link, whether it is a stream client, and the set of its subscriptions. */
  datatype Subscriber = Subscriber(link: nat, stream: bool, ids: set<Protocol>)

  ghost function SubscriberStep(ss: map<Handle, Subscriber>, op: Op): (ss': map<Handle, Subscriber>)
  {
    match op
    case Connect(h, link) => ss[h := Subscriber(link, true, AllProtocols())]
    case Subscribe(h, link, created, id) =>
      var before := if h in ss then ss[h] else Subscriber(link, false, {});
      if h !in ss && !created then ss
      else ss[h := before.(ids := if id == ALL then AllProtocols() else before.ids + {id})]
    case Unsubscribe(h, id) =>
      if h !in ss then ss
      else if id == ALL then (if ss[h].stream then ss[h := ss[h].(ids := {})] else ss - {h})
      else ss[h := ss[h].(ids := ss[h].ids - {id})]
    case Disconnect(h) => ss - {h}
  }

  ghost function SubscribersAfter(ss: map<Handle, Subscriber>, ops: seq<Op>): (ss': map<Handle, Subscriber>)
    decreases |ops|
  {
    if ops == [] then ss else SubscribersAfter(SubscriberStep(ss, ops[0]), ops[1..])
  }

  ghost function Observed(cs: Clients): (ss: map<Handle, Subscriber>)
    ensures ss.Keys == cs.Keys
  {
    map h | h in cs :: Subscriber(cs[h].link, cs[h].stream, SetOf(cs[h].words))
  }

  lemma {:induction false} StepObserved(cs: Clients, op: Op)
    ensures Observed(Step(cs, op)) == SubscriberStep(Observed(cs), op)
  {
    FilledIsAll();
    match op {
      case Subscribe(h, _, _, id) =>
        BitSetIsSet(if h in cs then cs[h].words else Filled(false), id);
      case Unsubscribe(h, id) =>
        if h in cs {
          BitSetIsSet(cs[h].words, id);
        }
      case Connect(_, _) =>
      case Disconnect(_) =>
    }
  }

  /** After any run, each client's eight words are exactly the set of ids it is subscribed to. */
  lemma {:induction false} RunObserved(cs: Clients, ops: seq<Op>)
    ensures Observed(Run(cs, ops)) == SubscribersAfter(Observed(cs), ops)
    decreases |ops|
  {
    if ops != [] {
      StepObserved(cs, ops[0]);
      RunObserved(Step(cs, ops[0]), ops[1..]);
    }
  }

  /** A client that is marked for cleanup is already gone: none in the table ever is. */
  lemma {:induction false} NoneMarked(cs: Clients, ops: seq<Op>)
    requires forall h | h in cs :: !cs[h].cleanup
    ensures forall h | h in Run(cs, ops) :: !Run(cs, ops)[h].cleanup
    decreases |ops|
  {
    if ops != [] {
      NoneMarked(Step(cs, ops[0]), ops[1..]);
    }
  }

  // ---------------------------------------------------------------- the server object

  /** A message handed to a link for one of its clients. */
  datatype Sending = Sending(link: nat, client: Handle)

  /** What is sent to the enumerated clients that are subscribed to the protocol, in order. */
  function Recipients(entries: seq<(Handle, ClientRecord)>, id: Protocol): (sent: seq<Sending>)
  {
    if entries == [] then []
    else
      var last := entries[|entries| - 1];
      Recipients(entries[..|entries| - 1], id) +
      if IsSubscribed(last.1.words, id) then [Sending(last.1.link, last.0)] else []
  }

  predicate Wants(entry: (Handle, ClientRecord), id: Protocol, x: Sending)
  {
    entry.0 == x.client && entry.1.link == x.link && IsSubscribed(entry.1.words, id)
  }

  ghost predicate SomeWants(entries: seq<(Handle, ClientRecord)>, id: Protocol, x: Sending)
  {
    exists a :: 0 <= a < |entries| && Wants(entries[a], id, x)
  }

  /** With no handle listed twice, each recipient is sent to once, on its own link. */
  lemma {:induction false} RecipientsAre(entries: seq<(Handle, ClientRecord)>, id: Protocol, x: Sending)
    requires forall a, b | 0 <= a < b < |entries| :: entries[a].0 != entries[b].0
    ensures multiset(Recipients(entries, id))[x] == if SomeWants(entries, id, x) then 1 else 0
    decreases |entries|
  {
    if entries != [] {
      var n := |entries| - 1;
      var front, last := entries[..n], entries[n];
      RecipientsAre(front, id, x);
      WantsOneMore(front, last, id, x);
      WantedOnce(entries, id, x);
      assert entries == front + [last];
      var more := if IsSubscribed(last.1.words, id) then [Sending(last.1.link, last.0)] else [];
      assert multiset(more)[x] == if Wants(last, id, x) then 1 else 0;
      assert Recipients(entries, id) == Recipients(front, id) + more;
    }
  }

  lemma {:induction false} WantedOnce(entries: seq<(Handle, ClientRecord)>, id: Protocol, x: Sending)
    requires entries != [] && forall a, b | 0 <= a < b < |entries| :: entries[a].0 != entries[b].0
    ensures !(SomeWants(entries[..|entries| - 1], id, x) && Wants(entries[|entries| - 1], id, x))
  {
    var n := |entries| - 1;
    var front := entries[..n];
    if SomeWants(front, id, x) {
      var a :| 0 <= a < n && Wants(front[a], id, x);
      assert entries[a].0 != entries[n].0;
    }
  }

  lemma {:induction false} WantsOneMore(front: seq<(Handle, ClientRecord)>, last: (Handle, ClientRecord),
                                        id: Protocol, x: Sending)
    ensures SomeWants(front + [last], id, x) <==> SomeWants(front, id, x) || Wants(last, id, x)
  {
    var entries := front + [last];
    assert entries[|front|] == last;
    if SomeWants(front, id, x) {
      var a :| 0 <= a < |front| && Wants(front[a], id, x);
      assert Wants(entries[a], id, x);
    }
  }

  class Server {
    var clients: Clients

    constructor ()
      ensures clients == map[]
    {
      clients := map[];
    }

    /** A stream client is accepted subscribed to everything. */
    method HandleConnection(handle: Handle, link: nat)
      modifies this
      ensures clients == Step(old(clients), Connect(handle, link))
      ensures handle in clients && clients[handle].link == link && SetOf(clients[handle].words) == AllProtocols()
    {
      FilledIsAll();
      clients := clients[handle := ClientRecord(link, true, false, Filled(true))];
    }

    method HandleSubscribe(handle: Handle, link: nat, created: bool, id: Protocol)
      modifies this
      ensures clients == Step(old(clients), Subscribe(handle, link, created, id))
    {
      if handle !in clients {
        if !created {
          return;
        }
        clients := clients[handle := ClientRecord(link, false, false, Filled(false))];
      } else {
        clients := clients[handle := clients[handle].(cleanup := false)];
      }
      var record := clients[handle];
      clients := clients[handle := record.(words := WithSubscription(record.words, id))];
    }

    /** A connectionless client that unsubscribes from everything is forgotten. */
    method HandleUnsubscribe(handle: Handle, id: Protocol)
      modifies this
      ensures clients == Step(old(clients), Unsubscribe(handle, id))
    {
      if handle !in clients {
        return;
      }
      var record := clients[handle];
      var cleanup := false;
      record := record.(words := WithoutSubscription(record.words, id));
      if id == ALL && !record.stream {
        record := record.(cleanup := true);
        cleanup := true;
      }
      clients := clients[handle := record];
      if cleanup {
        DestroyClient(handle);
      }
    }

    method DestroyClient(handle: Handle)
      modifies this
      ensures clients == old(clients) - {handle} == Step(old(clients), Disconnect(handle))
    {
      clients := clients - {handle};
    }

    /** One message to each registered client whose set contains the protocol, and none to others. */
    method Broadcast(id: Protocol, entries: seq<(Handle, ClientRecord)>) returns (sent: seq<Sending>)
      requires Lists(entries, clients)
      ensures SentTo(sent, clients, id)
    {
      sent := Send(entries, id);
      SentExactly(entries, clients, id);
    }
  }

  /** A registered client, reached on its own link, that is subscribed to the protocol. */
  ghost predicate Subscribes(clients: Clients, id: Protocol, x: Sending)
  {
    x.client in clients && clients[x.client].link == x.link && id in SetOf(clients[x.client].words)
  }

  /** One message to each such client, and nothing else. */
  ghost predicate SentTo(sent: seq<Sending>, clients: Clients, id: Protocol)
  {
    forall x :: multiset(sent)[x] == if Subscribes(clients, id, x) then 1 else 0
  }

  lemma {:induction false} SentExactly(entries: seq<(Handle, ClientRecord)>, clients: Clients, id: Protocol)
    requires Lists(entries, clients)
    ensures SentTo(Recipients(entries, id), clients, id)
  {
    forall x: Sending
      ensures multiset(Recipients(entries, id))[x] == if Subscribes(clients, id, x) then 1 else 0
    {
      RecipientsAre(entries, id, x);
      if x.client in clients {
        var a :| 0 <= a < |entries| && entries[a].0 == x.client;
        assert Wants(entries[a], id, x) <==> Subscribes(clients, id, x);
      }
    }
  }

  /** Visits the clients and sends to those that are subscribed. */
  method Send(entries: seq<(Handle, ClientRecord)>, id: Protocol) returns (sent: seq<Sending>)
    ensures sent == Recipients(entries, id)
  {
    sent := [];
    for i := 0 to |entries|
      invariant sent == Recipients(entries[..i], id)
    {
      assert entries[..i + 1][..i] == entries[..i];
      if IsSubscribed(entries[i].1.words, id) {
        sent := sent + [Sending(entries[i].1.link, entries[i].0)];
      }
    }
    assert entries[..|entries|] == entries;
  }

  /** The broadcast over the hash table that the clients are kept in, slot by slot. */
  method BroadcastTable(table: HashTable.HashTable<Handle, ClientRecord>, id: Protocol) returns (sent: seq<Sending>)
    requires table.Valid()
    ensures SentTo(sent, table.contents, id)
  {
    var entries := table.Enumerate();
    sent := Send(entries, id);
    SentExactly(entries, table.contents, id);
  }
}
