# A Dafny model of libgracht

libgracht is an RPC library: a runtime in C for clients and servers, and a compiler in Python that
turns protocol files into C serializers. This project models the parts of it where correctness is
hardest to see and proves what they are for. `dafny verify dfyconfig.toml` checks all of it.

* `RobinHood.dfy`, `HashTable.dfy`, `BitMask.dfy`: the open-addressed hash table behind every registry
  of the runtime. The probe, displacement and backward-shift loops run on an array; a ghost map is what
  they keep.
* `RingQueue.dfy`: the worker queue, a ring with wrapping 32-bit counters, against a bounded sequence.
* `Crc.dfy`, `CrcTables.dfy`: the table-driven checksums against bit-at-a-time polynomial division,
  and the errors CRC-32 is sure to detect.
* `RwLock.dfy`, `RwLockProgress.dfy`: the reader/writer lock as a step relation, with invariants over every
  interleaving, what each call achieves, and when a writer gets in. Spurious wake-ups are steps.
* `WorkerPool.dfy`, `WorkerProgress.dfy`, `WorkerShutdown.dfy`: the worker pool in the same way: conservation
  and order, what becomes of a message, and how the pool is destroyed.
* `WireFormat.dfy`, `WireMessages.dfy`, `WireBuffer.dfy`: the meaning of the emitted serializers and of
  the three emitted deserializer paths, the size expressions, and the code that works on a buffer and
  an index.
* `StackArray.dfy`, `StreamPools.dfy`, `StreamRegistry.dfy`: the free stack, the pools of stream buffers
  by size as values, and the same pools on their stacks.
* `ClientCalls.dfy`, `ClientAwait.dfy`: the correlation of requests and responses by message id.
* `Subscriptions.dfy`: the subscription words of a client and who receives a broadcast.
* `Consolidation.dfy`: the pass that flattens struct extensions while it iterates over the list it edits.
* `ProtocolTokens.dfy`, `ProtocolParser.dfy`, `ProtocolPrinter.dfy`, `ProtocolRoundTrip.dfy`,
  `ProtocolFiles.dfy`, `ProtocolBodies.dfy`, `ProtocolGrammar.dfy`: the table-driven parser, printing as its
  inverse, and the exact language it accepts.

Where a property one would expect turned out not to hold of the code, the code is kept, a lemma gives
the run or the input that shows it, and the exact condition is proved:

* The dispatcher signals after it unlocks, so a signal can reach a worker that has already taken the job; it
  then handles a null job (`WorkerPool.LateSignalFaults`, `WorkerPool.NullJobAvoidedExactly`).
* Destroying the pool can wait forever for a worker that tested its queue before the request and waits
  after the signal, or that overwrites the request when it starts (`WorkerShutdown.DestroyHangs`,
  `WorkerShutdown.RequestOverwritten`, `WorkerShutdown.JoinExactly`, `WorkerShutdown.DestroyExactly`).
* A thread that asks for the write lock while it has a read lock waits forever, and so does every writer
  (`RwLockProgress.UpgradeHangs`, `RwLockProgress.WriterGetsInExactly`).
* A dispatched message is lost without notice when 32 are queued (`WorkerProgress.RefusedExactly`).
* The ring is a FIFO queue only for capacities that divide 2^32 (`RingQueue.FifoExactlyWhenDivides`).
* A struct array that is longer than the caller's leaves bytes unread, which shifts the results after it
  (`WireMessages.SecondElementLeft`, `WireMessages.StructArrayShifts`). A size expression is exact only
  below 2^32 (`WireMessages.OversizedMessage`, `WireMessages.SizeExpressionExact`). A string result
  needs a maximum length of at least one (`WireMessages.ClampedStringFits`).
* An extension whose base has no members makes the pass skip the member after it
  (`Consolidation.SecondExtensionStays`, `Consolidation.VisitExact`).
* After 2^32 invocations message ids repeat (`ClientCalls.OneTooMany`, `ClientCalls.RunMatchesExactly`).
* Waiting for any of several calls returns, when none is done at entry, only when all are done
  (`ClientAwait.AnyOfTwoBlocks`, `ClientAwait.MessageClient.AwaitMultiple`).
* A second release of a buffer breaks its pool (`StreamPools.TwoOwners`, `StreamPools.ReleaseExactly`).
* Events with empty parentheses are refused (`ProtocolRoundTrip.EmptyEventRefused`,
  `ProtocolRoundTrip.EventExactly`).
* Pushing on a full stack leaves a gap (`StackArray.Stack.Push`).

## Model

| member | source | states |
|---|---|---|
| `BitMask.MaskIsRemainder` | runtime/hashtable.c:130 | Masking with a power of two less one is the remainder by it. |
| `BitMask.MaskedStep` | runtime/hashtable.c:163 | Stepping an index under the mask wraps to slot zero exactly at the end. |
| `HashTable.HashTable.constructor` | runtime/hashtable.c:47-91 | An empty table whose capacity is the least power of two that is at least 16 and at least the request. |
| `HashTable.HashTable.Set` | runtime/hashtable.c:108-165 | The table becomes the map with the key set; the replaced value comes back exactly when the key was present; it grows exactly at the grow count. |
| `HashTable.HashTable.Get` | runtime/hashtable.c:167-195 | The stored value, or nothing exactly when the key is absent. |
| `HashTable.HashTable.Remove` | runtime/hashtable.c:197-231 | The map without the key and the value it had; the capacity halves exactly at the shrink count. |
| `HashTable.HashTable.Delete` | runtime/hashtable.c:213-230 | Deletion proper: the map without the key, the value it had, the count one less exactly when there was one. |
| `HashTable.HashTable.Shrink` | runtime/hashtable.c:207-211 | The rebuild before a removal keeps the map. |
| `HashTable.HashTable.Resize` | runtime/hashtable.c:292-331 | Every rebuild keeps the stored map and count; none triggers a nested resize. |
| `HashTable.HashTable.CopySlot` | runtime/hashtable.c:313-319 | One turn of the rebuild loop adds exactly the element of its slot, if any. |
| `HashTable.HashTable.CopyInto` | runtime/hashtable.c:312-319 | The rebuild loop puts exactly the elements of the old table in the new one. |
| `HashTable.HashTable.Clone` | runtime/hashtable.c:279-290 | The temporary table of a rebuild is empty, with the thresholds of its own capacity. |
| `HashTable.HashTable.Adopt` | runtime/hashtable.c:324-330 | The rebuilt storage and thresholds are taken over with the map they hold. |
| `HashTable.HashTable.Enumerate` | runtime/hashtable.c:233-248 | Each stored element is visited exactly once, and nothing else. |
| `HashTable.InsertAt` | runtime/hashtable.c:125-164 | The displacement loop, in place, terminates and computes the slots and the replaced value. |
| `HashTable.Insert` | runtime/hashtable.c:108-165 | An insert leaves a well-formed Robin Hood table that holds the map with the key set. |
| `HashTable.Find` | runtime/hashtable.c:167-195 | The probe loop terminates and finds the key's slot, or gives up exactly when the key is absent. |
| `HashTable.RemoveAndBump` | runtime/hashtable.c:250-277 | Deleting a slot and shifting leaves a well-formed table that holds the map without the key. |
| `HashTable.Bump` | runtime/hashtable.c:250-277 | The backward-shift loop, in place, terminates and computes the shifted slots. |
| `HashTable.HashTable.ProbeBounds` | runtime/hashtable.c:126-164 | In every valid table each probe count is one plus the cyclic distance from the home slot, a count above one follows a slot with at least one less, no count exceeds the number of elements, and some slot is free. |
| `HashTable.HashTable.Thresholds` | include/hashtable.h:27-29 | A table grows at three quarters of its capacity, shrinks at a fifth of it, and has at least 16 slots. |
| `HashTable.RunOn` | runtime/hashtable.c:108-231 | Any sequence of set, get and remove on a table gives the answers and the contents of the same operations on a finite map. |
| `HashTable.RunFresh` | runtime/hashtable.c:47-231 | The same from a fresh table, grows and shrinks included. |
| `HashTable.ShortRunFits` | runtime/hashtable.c:126-164 | A run of any length whose sets are few enough for 16-bit probe counts stays in the range the other results need. |
| `RobinHood.InsertCorrect` | runtime/hashtable.c:126-164 | Insertion by displacement, as a recursive function of the slots, keeps order, homes, distinctness and contents. |
| `RobinHood.InsertSwaps` | runtime/hashtable.c:152-159 | Swapping the carried element with a richer one keeps everything that the rest of the insertion needs. |
| `RobinHood.FindCorrect` | runtime/hashtable.c:167-195 | The search that runs to the first free slot finds the key exactly when it is present. |
| `RobinHood.PoorerSlotEndsSearch` | runtime/hashtable.c:182-186 | Beyond a free slot, or any slot closer to its home than the key would be, the key cannot occur. |
| `RobinHood.ShiftCorrect` | runtime/hashtable.c:250-277 | Backward shifting closes the hole and keeps the invariant and the contents. |
| `RobinHood.RemovalMakesHole` | runtime/hashtable.c:250-257 | Deleting an element breaks the order at one place only, right after the hole. |
| `RobinHood.ProbeWithinCount` | runtime/hashtable.c:126-164 | A probe count is at most the number of stored elements. |
| `RobinHood.FreeSlot` | runtime/hashtable.c:38-39 | A table with fewer elements than slots has a free slot, so every probe loop ends. |
| `RobinHood.RebuildStep` | runtime/hashtable.c:312-319 | One more slot copied extends the rebuilt map by exactly that element. |
| `RingQueue.FifoExactlyWhenDivides` | runtime/queue.c:54-96 | Over every run from a fresh queue the ring behaves as a bounded FIFO sequence if and only if its capacity divides 2^32. |
| `RingQueue.RunRefines` | runtime/queue.c:54-96 | With such a capacity every run, wrapping counters included, gives the outputs of a bounded sequence. |
| `RingQueue.StepRefines` | runtime/queue.c:61-96 | One operation on the ring is one operation on the sequence. |
| `RingQueue.EnqueueRefines` | runtime/queue.c:61-78 | An enqueue is refused, and changes nothing, exactly when the queue is full; otherwise it appends. |
| `RingQueue.DequeueRefines` | runtime/queue.c:80-96 | Dequeue takes the oldest element, or nothing exactly when the queue is empty. |
| `RingQueue.ChurnDiffers` | runtime/queue.c:54-96 | For a capacity that does not divide 2^32 some run departs from a FIFO sequence: after enough turns an enqueue overwrites the oldest element. |
| `RingQueue.Queue.Construct` | runtime/queue.c:25-43 | A queue is made exactly for a capacity above zero, and is empty. |
| `RingQueue.Queue.TryEnqueue` | runtime/queue.c:61-78 | The fields change as the step does; null is refused. |
| `RingQueue.Queue.TryDequeue` | runtime/queue.c:80-96 | The fields change as the step does and the element is what the step gives. |
| `Crc.RegisterIsRemainder` | runtime/crc.c:152-173 | Feeding bits through the register is schoolbook polynomial division, modulo two, of the message. |
| `Crc.UpdateAbsorbs` | runtime/crc.c:181-187 | One table step is eight bit steps, for every polynomial, register and byte. |
| `Crc.AbsorbWord` | runtime/crc.c:195-214 | Absorbing a word no wider than the register is shifting the register with the word subtracted. |
| `Crc.ShiftsLinear` | runtime/crc.c:195-214 | The shift register is linear in its state. |
| `Crc.CodeAppend` | runtime/crc.c:110-116 | Appending a byte to a message advances its code by the eight bits of that byte. |
| `Crc.BurstDetected` | runtime/crc.c:152-173 | Messages that agree outside any 32 consecutive bits have the same CRC-32 (section 8 of RFC 1952) only when they are equal. |
| `Crc.FourBytesDetected` | runtime/crc.c:152-173 | Messages that differ inside one window of four bytes have different CRC-32 values. |
| `Crc.AbsorbInjective` | runtime/crc.c:152-173 | A register step is injective when the polynomial has its top bit set. |
| `Crc.Poly16Terms` | runtime/crc.c:36 | The generator of the CRC-16 is x^16 + x^15 + x^2 + 1, bit by bit. |
| `Crc.Poly32Terms` | runtime/crc.c:40 | The generator of CRC-32 has exactly the published exponents, bit by bit. |
| `Crc.StartValues` | runtime/crc.c:37-41 | CRC-32 and MODBUS start from all ones, the other CRC-16 from zeros. |
| `Crc.Crc32Complements` | runtime/crc.c:152-173 | Each bit of a CRC-32 is the opposite of that of the remainder. |
| `CrcTables.ShiftByte` | runtime/crc.c:203-209 | The inner loop of the CRC-32 table gives eight shifts of the byte. |
| `CrcTables.FillByShifting` | runtime/crc.c:195-214 | The CRC-32 table is filled with those. |
| `CrcTables.AbsorbByte` | runtime/crc.c:132-139 | The inner loop of the CRC-16 table, which tests bits of a second variable, gives the same entry. |
| `CrcTables.FillByAbsorbing` | runtime/crc.c:124-143 | The CRC-16 table is filled with those. |
| `CrcTables.Fold` | runtime/crc.c:59-78 | Folding the byte update over a message gives its bit-at-a-time code; no data gives the start value. |
| `CrcTables.Step` | runtime/crc.c:110-116 | One byte update is the eight absorbed bits of the byte. |
| `CrcTables.Tables.Initialize16` | runtime/crc.c:124-143 | The CRC-16 table is filled, and stays as it is when it was. |
| `CrcTables.Tables.Initialize32` | runtime/crc.c:195-214 | The CRC-32 table is filled, and stays as it is when it was. |
| `CrcTables.Tables.Generate32` | runtime/crc.c:152-173 | The complement of the bit-at-a-time register of the reflected polynomial 0xEDB88320 from all ones, by section 8 of RFC 1952. |
| `CrcTables.Tables.Generate16` | runtime/crc.c:59-78 | The bit-at-a-time CRC-16 from zero. |
| `CrcTables.Tables.Modbus` | runtime/crc.c:85-104 | The bit-at-a-time CRC-16 from all ones. |
| `CrcTables.Tables.Update32` | runtime/crc.c:181-187 | The register after eight more message bits. |
| `CrcTables.Tables.Update16` | runtime/crc.c:110-116 | The register after eight more message bits. |
| `RwLock.StepInvariant` | include/rwlock.h:48-78 | Every step of every interleaving keeps mutex ownership, the reader count and the watch over sleeping writers. |
| `RwLock.RunSafety` | include/rwlock.h:48-78 | In every state of every run, spurious wake-ups included: the count equals the read locks out, a writer excludes all others, the assertion in the read unlock holds, and no writer sleeps on a free lock without somebody woken or about to signal. |
| `RwLock.NoDeadlock` | include/rwlock.h:48-78 | With nobody inside, a thread in the middle of a lock function leaves some internal step enabled. |
| `RwLockProgress.ReaderEnters` | include/rwlock.h:48-53 | From every state with the mutex free a thread outside takes a read lock in its three steps, whoever else has one; the count and the read locks out grow by one and nothing else changes. |
| `RwLockProgress.WriterEnters` | include/rwlock.h:66-72 | From such a state a writer gets in exactly when no read lock is out; otherwise it sleeps and the mutex is free. |
| `RwLockProgress.ReaderLeavesOthers` | include/rwlock.h:55-64 | A reader that leaves others inside only takes itself off. |
| `RwLockProgress.LastReaderLeaves` | include/rwlock.h:55-64 | The last reader empties the lock and wakes at least one sleeping writer if there is any. |
| `RwLockProgress.WriterLeaves` | include/rwlock.h:74-78 | A writer frees the mutex and wakes at least one sleeping writer if there is any. |
| `RwLockProgress.AwakeTests` | include/rwlock.h:66-72 | A woken writer takes the mutex back and tests again: it gets in exactly when no read lock is out, and otherwise sleeps. |
| `RwLockProgress.SpuriousWakeHarmless` | include/rwlock.h:66-72 | A writer woken for nothing while readers are inside sleeps again, and the state is what it was. |
| `RwLockProgress.WriterGetsInExactly` | include/rwlock.h:48-78 | From every state of every interleaving a waiting writer can get in if and only if no thread waits for the write lock while it has a read lock. |
| `RwLockProgress.UpgradeBlocks` | include/rwlock.h:66-72 | In every run after such a thread waits, nobody writes. |
| `RwLockProgress.UpgradeHangs` | include/rwlock.h:48-72 | A run of one thread that takes a read lock and then asks for the write lock ends asleep. |
| `WorkerPool.StepOk` | runtime/dispatch_generic.c:95-216 | Every step of dispatcher and workers keeps conservation, order, the turn and the shutdown conditions. |
| `WorkerPool.RunOrder` | runtime/dispatch_generic.c:95-216 | In every run the k-th dispatch goes to worker k modulo n; each worker handles its messages in dispatch order; accepted is cleaned, in progress or queued; an exited worker has cleaned all. |
| `WorkerPool.RunExactlyOnce` | runtime/dispatch_generic.c:170-216 | Each accepted message is in exactly one of the three places, is handled at most once, and is cleaned exactly once by worker exit. |
| `WorkerPool.NullJobAvoidedExactly` | runtime/dispatch_generic.c:183-197 | A run never comes to the point where a worker takes a null job if and only if each of its wake-ups (signal, shutdown signal or spurious) finds a queued message or a shutdown request; then no worker ever has one. |
| `WorkerPool.RunAvoidsNullJobs` | runtime/dispatch_generic.c:183-197 | The same for every run from the start. |
| `WorkerPool.LateSignalFaults` | runtime/dispatch_generic.c:119-138 | A run from the start with a null job and without any spurious wake-up: the signal, sent after the unlock, arrives once the job is already done. |
| `WorkerProgress.OfferedEnqueues` | runtime/dispatch_generic.c:119-131 | A dispatch is an enqueue on a bounded sequence of 32: refused exactly when 32 messages are queued, and nothing else of the worker changes. |
| `WorkerProgress.OfferedOnRing` | runtime/dispatch_generic.c:119-131 | The same on the ring of capacity 32, wherever its counters are. |
| `WorkerProgress.TakenFromRing` | runtime/dispatch_generic.c:183-216 | Each worker step that dequeues goes on with exactly what the ring gives, or finds it empty; no other step touches the queue. |
| `WorkerProgress.RefusedExactly` | runtime/dispatch_generic.c:119-138 | In every run the dispatch with number m is accepted by worker m modulo n, and no other, if and only if fewer than 32 messages are queued there at that moment. |
| `WorkerProgress.NumberedInOrder` | runtime/dispatch_generic.c:119-138 | Messages are numbered by the dispatches before them, accepted or not. |
| `WorkerProgress.NoLostWakeup` | runtime/dispatch_generic.c:119-197 | In every run a worker with a queued message and no fault has a step of its own to take, or the dispatcher is about to signal it. |
| `WorkerProgress.ServerThreadFree` | runtime/dispatch_generic.c:95-138 | In every run the server thread can take its next step unless it joins a worker that has not exited; a full queue does not hold it up. |
| `WorkerProgress.HandledWithin` | runtime/dispatch_generic.c:170-216 | In every run without a destruction, whatever else runs in between, a queued message has been handled once its worker has taken four steps for each message before it and at most five more. |
| `WorkerProgress.RunHandles` | runtime/dispatch_generic.c:170-216 | The same at any moment of any run from the start. |
| `WorkerShutdown.JoinExactly` | runtime/dispatch_generic.c:104-111 | While a worker is joined, the join can be completed, other than by a spurious wake-up, if and only if the worker can exit: it drains, has exited, or knows of the request and is past its test of an empty queue. |
| `WorkerShutdown.JoinHangs` | runtime/dispatch_generic.c:104-111 | In every such run of a worker that cannot exit the dispatcher stays at the join. |
| `WorkerShutdown.JoinReached` | runtime/dispatch_generic.c:104-111 | A worker that can exit has a run of its own steps that ends with its join, and no other worker changes. |
| `WorkerShutdown.ExitsWithin` | runtime/dispatch_generic.c:170-216 | In every run after that, whatever else runs in between, a worker that can exit takes at most its distance of own steps, and has exited once it has taken that many. |
| `WorkerShutdown.RousedExactly` | runtime/dispatch_generic.c:104-107 | After the signal a worker gets to its exit exactly when it drains or has exited, or when the request still stands and it has no null job, has started and is not about to find its queue empty. |
| `WorkerShutdown.RequestOverwritten` | runtime/dispatch_generic.c:95-117 | A run in which a worker that starts late overwrites the request, and destroying the pool hangs. |
| `WorkerShutdown.DestroyExactly` | runtime/dispatch_generic.c:95-117 | From any idle state the destruction of the whole pool can be completed without spurious wake-ups if and only if no worker has a null job. |
| `WorkerShutdown.NullJobBlocks` | runtime/dispatch_generic.c:95-117 | In every run a worker with a null job is never joined. |
| `WorkerShutdown.DestroyHangs` | runtime/dispatch_generic.c:95-117 | A run in which destroying an idle pool of one worker hangs. |
| `StackArray.Stack.Construct` | runtime/stack.c:32-50 | A stack is made exactly for a count above zero, and is empty. |
| `StackArray.Stack.Resize` | runtime/stack.c:61-83 | The capacity doubles and the elements stay. |
| `StackArray.Stack.Push` | runtime/stack.c:85-103 | With room the pointer is appended; a full stack gets a gap of one element, or of two when its capacity was one, because the index is taken again after each resize. |
| `StackArray.Stack.Pop` | runtime/stack.c:105-125 | The last element is removed and returned; an empty stack gives null. |
| `StreamPools.NormalizedSize` | runtime/stream_pool_registry.c:26-35 | The least multiple of 256 not below the request; not below the fallback when nothing was requested; 2048 when there is no fallback either. |
| `StreamPools.CreatedPartitioned` | runtime/buffer_pool.c:34-84 | A new pool's buffers are partitioned into free and outstanding, all of them free. |
| `StreamPools.PopPartitioned` | runtime/buffer_pool.c:117-123 | Taking the top free buffer keeps the partition. |
| `StreamPools.PushPartitioned` | runtime/buffer_pool.c:125-131 | Returning an outstanding buffer keeps the partition. |
| `StreamPools.FreeFits` | runtime/buffer_pool.c:77-80 | There are never more free buffers than the stack was sized for, so it never resizes. |
| `StreamPools.BuffersApart` | runtime/buffer_pool.c:77-80 | Different buffers of a pool do not overlap. |
| `StreamPools.BufferOwned` | runtime/buffer_pool.c:133-146 | Every buffer of a pool lies in the range by which it is recognised. |
| `StreamPools.OwnerIsSource` | runtime/stream_pool_registry.c:96-111 | The pool in whose range an outstanding buffer lies is the one it was taken from. |
| `StreamPools.OutstandingDisjoint` | runtime/stream_pool_registry.c:54-111 | Outstanding buffers are pairwise disjoint byte ranges, across pools. |
| `StreamPools.AcquireKeeps` | runtime/stream_pool_registry.c:54-94 | An acquire keeps the pools in order; its buffer was not out and is of the pool of that size; null for a size and count above zero means that all of that pool's buffers are out. |
| `StreamPools.ReleaseKeeps` | runtime/stream_pool_registry.c:96-111 | An outstanding buffer goes back to the pool it came from, whose stack has room for it; no other pool changes. |
| `StreamPools.ReleaseExactly` | runtime/stream_pool_registry.c:96-111 | A release keeps the pools in order if and only if the address is out, or lies in the range of no pool. |
| `StreamPools.RefusedExactly` | runtime/stream_pool_registry.c:96-111 | A release is refused exactly for an address in the range of no pool. |
| `StreamPools.SecondReleaseShares` | runtime/stream_pool_registry.c:96-111 | A buffer released twice, with room on the stack, is handed out twice. |
| `StreamPools.TwoOwners` | runtime/stream_pool_registry.c:54-111 | A concrete run in which two owners get the same buffer. |
| `StreamPools.RunSafety` | runtime/stream_pool_registry.c:54-111 | After every run of acquires and at-most-once releases each pool is partitioned into free and outstanding buffers, its free stack is within its size, and outstanding buffers do not overlap. |
| `StreamRegistry.BufferPool.constructor` | runtime/buffer_pool.c:34-84 | Every buffer of a new pool is pushed on its array stack, which is made for all of them. |
| `StreamRegistry.BufferPool.Acquire` | runtime/buffer_pool.c:117-123 | The top free buffer, or null exactly when there is none. |
| `StreamRegistry.BufferPool.Release` | runtime/buffer_pool.c:125-131 | The buffer goes on top; the stack keeps its storage exactly when it has room. |
| `StreamRegistry.Registry.GetOrCreate` | runtime/stream_pool_registry.c:54-94 | The pool of that size, created on new storage when there is none and one can be made. |
| `StreamRegistry.Registry.Acquire` | runtime/stream_pool_registry.c:54-94 | On the array stacks, an acquire is the acquire of the pools as values. |
| `StreamRegistry.Registry.Release` | runtime/stream_pool_registry.c:96-111 | On the array stacks, a release is the release of the pools as values, and no stack is resized exactly when there is room. |
| `StreamRegistry.RunFresh` | runtime/stream_pool_registry.c:54-111 | Every allowed run from an empty registry goes as the steps on values say, with no stack ever resized. |
| `WireFormat.RoundTrip` | generator/languages/langc.py:413-438 | For every schema, type and well-typed value, decoding the encoding followed by any bytes gives the value (null strings as empty) and exactly those bytes. |
| `WireFormat.RoundTripVariant` | generator/languages/langc.py:552-563 | The same for tagged variants, including tags that select nothing. |
| `WireFormat.RoundTripEach` | generator/languages/langc.py:366-383 | The same for the elements of an array. |
| `WireFormat.RoundTripAll` | generator/languages/langc.py:566-589 | The same for the members of a struct. |
| `WireFormat.StringCopied` | generator/languages/langc.py:821-836 | The copying reader gives the prefix of a written string that fits and skips all of it. |
| `WireFormat.StringInPlace` | generator/languages/langc.py:831-836 | The reader that returns a pointer into the message gives the written string. |
| `WireFormat.NumberRoundTrip` | generator/languages/langc.py:786-806 | Little-endian bytes give the number back, at every width. |
| `WireFormat.BytesAre` | generator/languages/langc.py:786-806 | The bytes of a number are its digits to the base 256, the lowest first. |
| `WireFormat.NumberTruncated` | generator/languages/langc.py:786-806 | A number too wide for its bytes is read back modulo what they hold. |
| `WireMessages.ArgsRoundTrip` | generator/languages/langc.py:486-522 | Arguments written by the client are read back unchanged by the server and event path. |
| `WireMessages.ResultsClamped` | generator/languages/langc.py:525-549 | On the client result path every result is the prefix that fits its buffer and none shifts the next, if each struct array fits or is of a type without bytes. |
| `WireMessages.ResultClamped` | generator/languages/langc.py:612-628 | The same for one result. |
| `WireMessages.UnsentHeader` | generator/languages/langc.py:668-674 | Before it is sent, a message has service, action and flags where the runtime looks for them, and zeros for id and length. |
| `WireMessages.HeaderRead` | include/utils.h:45-61 | The five header fields are read back from their offsets, whatever follows. |
| `WireMessages.CallRead` | runtime/client.c:180-201 | A stamped call gives back id, length modulo 2^32, service, action, flags and, from byte 11 on, the arguments, and nothing is left. |
| `WireMessages.ResponseRead` | runtime/server.c:824-830 | A stamped response gives back its header and each result cut to the caller's buffer, and nothing is left. |
| `WireMessages.AllConcat` | generator/languages/langc.py:868-874 | Parameters and members are laid out in order, for every split of the list. |
| `WireMessages.ElementPlace` | generator/languages/langc.py:366-383 | Element i of an array copied as a block is at 4 plus i times its size. |
| `WireMessages.ArrayResult` | generator/languages/langc.py:525-549 | What the client reads of an array, and what it leaves unread of a struct array. |
| `WireMessages.StructArrayShifts` | generator/languages/langc.py:525-549 | A struct array is read without shifting what follows if and only if it fits the caller's array or its element type occupies no bytes. |
| `WireMessages.WeightlessExactly` | generator/languages/langc.py:427-438 | A value is written as nothing exactly when its type is a struct of members without bytes, all the way down. |
| `WireMessages.SecondElementLeft` | generator/languages/langc.py:525-549 | Two one-byte structs read into an array of one: the second byte is left in front of what follows. |
| `WireMessages.ClampedStringFits` | generator/languages/langc.py:821-836 | The clamped string with its terminator fits if and only if the maximum length is at least one. |
| `WireMessages.SizeExpressionExact` | generator/languages/langc.py:130-164 | A generated size expression is the message length modulo 2^32, hence exact if and only if the message is shorter than that. |
| `WireMessages.MemberSizeExact` | generator/languages/langc.py:130-153 | The same for one parameter. |
| `WireMessages.SizeGenerated` | generator/languages/langc.py:130-164 | An expression is generated exactly when every parameter is a scalar or an enum, or a string or block array whose argument is at hand. |
| `WireMessages.OversizedMessage` | generator/languages/langc.py:130-164 | An array of 2^29 eight-byte numbers: the expression is 15 and the message 2^32 + 15 bytes long. |
| `WireMessages.StreamBufferHolds` | runtime/client.c:634-661 | The stream buffer acquired for the expression holds the message, with less than 256 bytes to spare. |
| `WireMessages.ResponseSizeExact` | generator/languages/langc.py:631-677 | The size used for responses is the length of every response modulo 2^32, hence exact if and only if that is below 2^32. |
| `WireBuffer.Buffer.Store` | generator/languages/langc.py:786-806 | Stores bytes at the index and advances it, touching nothing else of what was written. |
| `WireBuffer.Buffer.SerializeString` | generator/languages/langc.py:807-819 | Writes the length, the characters and the terminator. |
| `WireBuffer.Buffer.SerializeValue` | generator/languages/langc.py:427-438 | Writes exactly the encoding of the value at the index. |
| `WireBuffer.Buffer.SerializeVariant` | generator/languages/langc.py:413-424 | Writes exactly the encoding of the variant. |
| `WireBuffer.Buffer.SerializeArray` | generator/languages/langc.py:366-383 | Writes the count and exactly the encoding of the elements. |
| `WireBuffer.Buffer.SerializeEach` | generator/languages/langc.py:366-383 | The element loop writes the encodings in order. |
| `WireBuffer.Buffer.SerializeAll` | generator/languages/langc.py:868-874 | Writes the members in order. |
| `WireBuffer.Buffer.SerializeMessage` | generator/languages/langc.py:631-677 | Header and parameters are exactly the message, and the runtime finds service, action and flags in it. |
| `WireBuffer.Buffer.Stamp` | runtime/client.c:180-183 | Sending fills in the id and the length and touches nothing else. |
| `WireBuffer.Buffer.OpenMessage` | runtime/client.c:241-256 | The header is read at the runtime's offsets and the index moves past its 11 bytes. |
| `WireBuffer.Buffer.DeserializeStringInPlace` | generator/languages/langc.py:831-836 | The pointer into the message is at the written string, and the index past it. |
| `WireBuffer.Buffer.DeserializeArgs` | generator/languages/langc.py:507-522 | The arguments are read in order, strings in place. |
| `WireBuffer.Deliver` | generator/languages/langc.py:631-677 | A call written by one buffer, stamped, and read by another arrives with its header and its arguments. |
| `WireBuffer.Buffer.DeserializeNumber` | generator/languages/langc.py:786-806 | Reads the number and advances past it. |
| `WireBuffer.Buffer.DeserializeStringCopy` | generator/languages/langc.py:821-836 | The caller's buffer holds the clamped string, terminated, and the index is past the whole written string. |
| `WireBuffer.Buffer.DeserializeValue` | generator/languages/langc.py:566-589 | Reads what the decoding function gives and leaves the rest. |
| `WireBuffer.Buffer.DeserializeAll` | generator/languages/langc.py:877-883 | Reads the members in order. |
| `WireBuffer.Buffer.DeserializeEach` | generator/languages/langc.py:456-483 | The element loop reads what the decoding function gives. |
| `ClientCalls.RunMatchesExactly` | runtime/client.c:160-214 | In every run of at most n invocations the message table holds exactly the sent synchronous calls not yet collected, with their statuses and responses, if and only if n is at most 2^32. |
| `ClientCalls.RunMatches` | runtime/client.c:160-214 | The half of it that a client relies on. |
| `ClientCalls.InvokeMatches` | runtime/client.c:160-214 | An invocation adds the call exactly when it is synchronous, has a context and was sent. |
| `ClientCalls.EventMatches` | runtime/client.c:258-290 | A response or error changes only the call with its id; collecting removes only that call. |
| `ClientCalls.IdsUnique` | runtime/client.c:941-944 | Up to 2^32 invocations have different ids. |
| `ClientCalls.ExecutedStaysInTable` | runtime/client.c:258-290 | In the message table an executed call is executed or gone after whatever follows, within 2^32 invocations. |
| `ClientCalls.CallOutcome` | runtime/client.c:160-290 | In every run of at most 2^32 invocations a call is in the table exactly when it was recorded and not collected since; its status is that of the last event with its id since the call, and its data that of the last response, or none. |
| `ClientCalls.OneTooMany` | runtime/client.c:941-944 | One invocation more and a completed call, never collected, is in progress again. |
| `ClientAwait.MessageClient.InvokeCall` | runtime/client.c:160-214 | The fields change as the step does; the call succeeds exactly when it was sent and, if synchronous, has a context. |
| `ClientAwait.MessageClient.HandleResponse` | runtime/client.c:258-290 | Only the descriptor with that id changes: it is completed, keeps its awaiter and has the response's data; its awaiter counts one more. |
| `ClientAwait.MessageClient.HandleError` | runtime/client.c:951-978 | Only the descriptor with that id changes: it is marked failed and keeps its awaiter and data; its awaiter counts one more. |
| `ClientAwait.MessageClient.CollectCall` | runtime/client.c:663-707 | The descriptor leaves the table, or nothing happens exactly when it is not there. |
| `ClientAwait.CollectAfter` | runtime/client.c:663-707 | On a new client, after any run, collecting a call gives the status of the last event and the data of the last response since the call, or nothing exactly when it was not recorded or is collected already. |
| `ClientAwait.MessageClient.WaitMessage` | runtime/client.c:308-459 | Receives up to the first event that is handled, whose effect on the table it has; responses nobody waits for are dropped; nothing changes when all are. |
| `ClientAwait.MessageClient.Pump` | runtime/client.c:505-529 | One turn of the waiting loop: the count of done calls is right again, and the calls were not all done before the turn's last event. |
| `ClientAwait.MessageClient.AwaitLoop` | runtime/client.c:505-529 | The loop ends at the first moment when all awaited calls are done, or has used up what arrives. |
| `ClientAwait.MessageClient.Recount` | runtime/client.c:505-529 | Counts the awaited calls that are executed or absent. |
| `ClientAwait.MessageClient.Enlist` | runtime/client.c:555-573 | Notes the awaiter on each awaited call and counts those that need no waiting. |
| `ClientAwait.TagExactly` | runtime/client.c:555-573 | Exactly the awaited calls that are in the table are noted with the awaiter. |
| `ClientAwait.MessageClient.AwaitMultiple` | runtime/client.c:531-608 | Returns at once exactly when all are done, or any is and any was asked for; otherwise, for any as for all, at the first moment when all are done, and blocks if that does not come. |
| `ClientAwait.ReturnsExactly` | runtime/client.c:505-529 | Such a moment comes if and only if all are done once everything has arrived. |
| `ClientAwait.AnyOfTwoBlocks` | runtime/client.c:531-608 | Asked for any of two calls, with the response to one of them there, the wait still blocks. |
| `Subscriptions.RunObserved` | runtime/server.c:1022-1141 | After any run of connects, subscribes, unsubscribes and disconnects each client's bitset is its abstract set of protocols, and its link the one it came by. |
| `Subscriptions.StepObserved` | runtime/server.c:1022-1141 | One step on the words is one step on the sets, id 0xFF meaning all. |
| `Subscriptions.BitSetIsSet` | runtime/server.c:1022-1048 | Setting and clearing a bit of the eight words adds and removes exactly that protocol. |
| `Subscriptions.TestsOneBit` | runtime/server.c:1050-1055 | The masked test reads exactly bit id % 32 of word id / 32. |
| `Subscriptions.FilledIsAll` | runtime/server.c:1022-1048 | All ones is the set of all protocols and all zeros the empty set. |
| `Subscriptions.NoneMarked` | runtime/server.c:1099-1141 | After any run no client in the table is marked for cleanup: a marked one is gone. |
| `Subscriptions.RecipientsAre` | runtime/server.c:907-928 | A client receives a broadcast exactly once, on its own link, if it is subscribed, and not at all otherwise. |
| `Subscriptions.Server.HandleConnection` | runtime/server.c:296-324 | A connected stream client is in the table with every protocol. |
| `Subscriptions.Server.HandleSubscribe` | runtime/server.c:1058-1109 | The client, created empty when unknown and connectionless, gains exactly that protocol, or all. |
| `Subscriptions.Server.HandleUnsubscribe` | runtime/server.c:1111-1141 | The client loses exactly that protocol; 0xFF clears all of them, and a connectionless client is then forgotten. |
| `Subscriptions.BroadcastTable` | runtime/server.c:907-928 | Over the client hash table itself, one message goes to each stored client that is subscribed, and none to others. |
| `Subscriptions.Server.Broadcast` | runtime/server.c:907-928 | The same over any list of the clients. |
| `Consolidation.Service.Consolidate` | generator/passes/consolidate.py:34-37 | The pass leaves every struct its recursive in-order expansion if and only if every struct is good, that is, every extension resolves and none with an empty expansion stands right before another; the declaration order does not matter. |
| `Consolidation.Service.ConsolidateStruct` | generator/passes/consolidate.py:25-32 | The same for one struct and its bases; structs that are done and structs not reached stay as they are. |
| `Consolidation.Service.ConsolidateMembers` | generator/passes/consolidate.py:29-30 | The loop over the live member list terminates; the list is then what visiting the parsed list leaves, and its expansion exactly when the struct is good. |
| `Consolidation.Service.ConsolidateMember` | generator/passes/consolidate.py:4-23 | An extension is replaced by its base's members where it stands; any other member changes nothing. |
| `Consolidation.Splice` | generator/passes/consolidate.py:17-22 | Inserting one by one before the first occurrence and removing it puts the base in its place. |
| `Consolidation.LookupFinds` | generator/common/shared.py:199-203 | A type resolves to the first struct whose name differs at most in the case of letters, and to none exactly when there is no such struct. |
| `Text.SameIgnoringCase` | generator/common/shared.py:199-203 | Lower case makes two names equal exactly when they differ at most in the case of ASCII letters. |
| `Consolidation.VisitExact` | generator/passes/consolidate.py:25-32 | Visiting a list while splicing gives its expansion exactly when nothing is skipped, and leaves an extension otherwise. |
| `Consolidation.VisitingSplices` | generator/passes/consolidate.py:17-23 | Splicing a base with members keeps the loop's position right. |
| `Consolidation.VisitingSkips` | generator/passes/consolidate.py:17-23 | Splicing an empty base lets the next member slip by unvisited. |
| `Consolidation.ExpandFlat` | generator/passes/consolidate.py:25-37 | An expansion holds no extension. |
| `Consolidation.ConsolidateTwice` | generator/passes/consolidate.py:34-37 | The pass run on its own result succeeds and changes nothing. |
| `Consolidation.ConsolidatedStays` | generator/passes/consolidate.py:25-37 | A struct without extensions is good and its own expansion. |
| `Consolidation.SkippedPair` | generator/passes/consolidate.py:29-30 | Two extensions of which the first is empty: the second is never replaced. |
| `Consolidation.SecondExtensionStays` | generator/passes/consolidate.py:29-30 | A concrete service where an extension survives although both bases are known. |
| `ProtocolTokens.MatchSyntax` | generator/parser.py:785-813 | The two-index loop decides the recursive definition of matching, runs and early ends included. |
| `ProtocolTokens.SkipRun` | generator/parser.py:804-811 | The inner loop stops at the first token of the kind that ends a run. |
| `ProtocolTokens.MatchingRBracket` | generator/parser.py:755-764 | The loop finds the bracket that leaves the scope. |
| `ProtocolTokens.ClosingAfter` | generator/parser.py:755-764 | That bracket is the first after any balanced run of tokens. |
| `ProtocolTokens.MatchesPlaces` | generator/parser.py:785-813 | A syntax without runs matches place by place, as far as the shorter of the two lists goes. |
| `ProtocolParser.SyntaxWellFormed` | generator/parser.py:288-385 | In every syntax of every table a run is followed by the kind that ends it. |
| `ProtocolParser.FindRule` | generator/parser.py:819-825 | The inner loop finds the first rule of the table that matches. |
| `ProtocolParser.ReadVariant` | generator/parser.py:742-750 | The loop over variant members reads what the recursive definition gives. |
| `ProtocolParser.Parser.ParseScope` | generator/parser.py:816-828 | The scope loop terminates, since every handler uses up tokens, and leaves the context the recursive definition gives, or its failure. |
| `ProtocolPrinter.MembersRoundTrip` | generator/parser.py:704-782 | A printed struct body (members, arrays, extensions, variants) is read back member by member. |
| `ProtocolPrinter.EntriesRead` | generator/parser.py:731-753 | Printed variant members are read back, up to the closing bracket. |
| `ProtocolPrinter.ParamsRoundTrip` | generator/parser.py:554-568 | A printed parameter list is read back. |
| `ProtocolPrinter.ParamsHandled` | generator/parser.py:579-593 | After the opening parenthesis every printed form (an empty list, a list, a type alone) is read back. |
| `ProtocolPrinter.LoneHandled` | generator/parser.py:602-605 | A type alone in parentheses gives one parameter of that type and name. |
| `ProtocolRoundTrip.FuncMatches` | generator/parser.py:318-321 | The function syntax with its two runs matches every printed function. |
| `ProtocolRoundTrip.FuncHandled` | generator/parser.py:571-623 | A printed function is read back with its request and its response, each a list or a type alone. |
| `ProtocolRoundTrip.EventHandled` | generator/parser.py:626-652 | A printed event with parameters is read back. |
| `ProtocolRoundTrip.TypedEventParsed` | generator/parser.py:634-636 | An event given by a type alone gets one parameter of that type and name. |
| `ProtocolRoundTrip.EventExactly` | generator/parser.py:626-652 | An event with its parameters in parentheses is accepted if and only if it has any, and is then read back. |
| `ProtocolRoundTrip.EmptyEventRefused` | generator/parser.py:637-645 | An event with empty parentheses is refused, whatever follows. |
| `ProtocolRoundTrip.ItemsRoundTrip` | generator/parser.py:816-828 | A printed service body, functions and events in any mix, is read back. |
| `ProtocolRoundTrip.ValuesRoundTrip` | generator/parser.py:655-702 | Printed enum values are read back, with and without explicit values, and with or without a comma before the bracket. |
| `ProtocolRoundTrip.SettingsRoundTrip` | generator/parser.py:543-551 | Printed stream options are read back; later settings of a key replace earlier ones. |
| `ProtocolFiles.FileRoundTrip` | generator/parser.py:816-828 | Parsing the print of any list of declarations gives exactly the context those declarations mean. |
| `ProtocolFiles.DeclarationParsed` | generator/parser.py:288-313 | Each printed declaration is taken by its own rule and handler, and leaves nothing half collected. |
| `ProtocolFiles.StructHandled` | generator/parser.py:766-782 | A printed struct is read back. |
| `ProtocolFiles.EnumHandled` | generator/parser.py:685-702 | A printed enum is read back. |
| `ProtocolFiles.ItemsHandled` | generator/parser.py:506-540 | A printed message service is read back with its functions and events in order. |
| `ProtocolFiles.SettingsHandled` | generator/parser.py:506-540 | A printed stream service is read back with its options. |
| `ProtocolFiles.OtherParsed` | generator/parser.py:519-540 | A service of an unknown kind is accepted when its body is empty, and has that kind in lower case. |
| `ProtocolBodies.BodiesExact` | generator/parser.py:704-782 | Of what the scanner makes, the struct bodies accepted are exactly the printed member lists. |
| `ProtocolBodies.MembersExact` | generator/parser.py:816-828 | An accepted struct body is the print of the members it parses to. |
| `ProtocolGrammar.FilesExactly` | generator/parser.py:816-828 | Of what the scanner makes, the files accepted are exactly the prints of lists of declarations, in every form a declaration may be written in, and each gives exactly the context those declarations mean. |
| `ProtocolGrammar.FileExact` | generator/parser.py:816-828 | An accepted file is the print of the declarations it gives. |
| `ProtocolGrammar.DeclarationExact` | generator/parser.py:288-313 | Each round of the loop over a file takes exactly one printed declaration. |
| `ProtocolGrammar.ItemsExact` | generator/parser.py:316-331 | An accepted service body is the print of its functions and events. |
| `ProtocolGrammar.FuncExact` | generator/parser.py:571-623 | An accepted function is the print of the function it gives, its two runs included. |
| `ProtocolGrammar.FormExact` | generator/parser.py:579-595 | After the opening parenthesis of a function nothing but a printed form is accepted. |
| `ProtocolGrammar.ParamsExact` | generator/parser.py:554-568 | An accepted parameter list is the print of its parameters, which are at least one. |
| `ProtocolGrammar.ListedEventExact` | generator/parser.py:626-652 | An accepted event in parentheses is the print of the event it gives. |
| `ProtocolGrammar.ValuesExact` | generator/parser.py:655-702 | An accepted enum body is the print of its values, with or without a comma at the end. |
| `ProtocolGrammar.SettingsExact` | generator/parser.py:543-551 | An accepted stream body is the print of its options. |

## Left out

- Allocation failure, and size products that overflow: allocation succeeds with fresh, disjoint ranges.
- Sockets, other links, threads, atomics and asynchronous input: sending and receiving are abstract steps.
- HashTable.HashTable.Set: requires fewer than 65535 elements, because probe counts have 16 bits; larger tables are not modelled. Keys compare by equality, which stands for a comparison that agrees with the hash.
- HashTable.HashTable.Enumerate: the visitor does not change the table while it is visited.
- HashTable.HashTable.Remove: requires fewer than 65536 elements, since it may rebuild a table with 16-bit probe counts.
- HashTable.HashTable.Shrink: requires fewer than 65536 elements, for the same reason.
- HashTable.HashTable.Resize: requires fewer than 65536 elements, for the same reason.
- HashTable.HashTable.CopySlot: requires fewer than 65536 elements, for the same reason.
- HashTable.HashTable.CopyInto: requires fewer than 65536 elements, for the same reason.
- HashTable.Insert: requires fewer than 65535 elements, since the probe count of a further one could wrap.
- RobinHood.InsertCorrect: requires fewer than 65535 elements, for the same reason.
- HashTable.RunOn: is for runs whose every operation is within these bounds.
- HashTable.RunFresh: is for runs whose every operation is within these bounds.
- WorkerPool.RunExactlyOnce: speaks of accepted messages only; which ones are refused is stated exactly by `WorkerProgress.RefusedExactly`.
- StreamRegistry.Registry.Acquire: the address of new storage is a parameter; null stands for address zero.
- StackArray.Stack.Push: one thread at a time; the retry loops around the atomic index are not modelled.
- WireFormat.RoundTrip: strings are free of NUL bytes, as the C readers need them; string arrays and strings inside variants, which the compiler does not support uniformly, are left out.
- WireBuffer.Buffer.DeserializeValue: requires a buffer that holds what is read, since the emitted readers do not check the end of the buffer.
- WireMessages.ResultClamped: excludes a struct array that shifts what follows; what happens with one is stated exactly by `StructArrayShifts` and `ArrayResult`.
- WireMessages.ResultsClamped: excludes the struct arrays that shift what follows; what happens with one is stated exactly by `StructArrayShifts` and `ArrayResult`.
- ClientAwait.MessageClient.WaitMessage: buffer recycling and events for protocols are left out; the message and awaiter tables are finite maps.
- ClientAwait.MessageClient.AwaitMultiple: the mode in which another thread receives, and waiting on the condition variable, are left out.
- Subscriptions.BroadcastTable: what the links do with a message is left out, and the table does not change while it is visited.
- Consolidation.Service.Consolidate: stops at the first struct that is finished with an extension left in it; the source goes on, but never changes a finished struct again. Cyclic extensions, on which the source recurses without end, are excluded by a rank.
- ProtocolParser.Parser.ParseScope: the handlers are functions of a context value and a token list instead of changing both in place.
- ProtocolGrammar.FilesExactly: which message a refused file is refused with is not stated.
- Letter case outside ASCII, in the names of types and of service kinds.
- The scanner that makes tokens from text, the `import` of other files, and line numbers in error messages.
- Validation and synthesis passes, configuration, control protocol tables, and the layout of the emitted C text, which would only add easy members.
