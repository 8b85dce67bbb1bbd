# Verified models of the systems cores

Dafny models of nine cores of the repository, and proofs about them. Code that changes things in
place is a class or a method over arrays and linked nodes, proved against functions on values; the
properties of whole runs are lemmas about those functions. Concurrent programs are state machines
over their atomic steps, for any number of threads or processes and any interleaving; the classes
beside them perform the same steps. Results of system calls are inputs.

`dafny verify dfyconfig.toml` checks everything. Integers are unbounded where the program's sizes
are far below its word size; where width matters (headers in memory, `char` arithmetic, signed
fields) it is written out.

| file | core |
|---|---|
| `RwLock.dfy` | read/write lock over one mutex and two condition variables |
| `ShmQueue.dfy` | shared-memory ring of variable-length blocks, over a byte area |
| `CycleQueue.dfy` | linked ring that stretches and shrinks by whole buckets |
| `HashTable.dfy` | hash table with doubly linked chains and a traversal list |
| `Htable.dfy` | growing hash table with a cursor in the table |
| `Output.dfy`, `Input.dfy`, `Machine.dfy` | the server's connection: scatter/gather output, line input, event loop |
| `Dispatcher.dfy` | pre-forked server: parent, children and their pipes |
| `ProdCons.dfy` | many producers, one consumer |
| `Cgi.dfy` | percent-decoding and query strings |
| `Framing.dfy` | length-prefixed records over a byte stream |
| `ByteBuffer.dfy` | sliding byte buffer |
| `Bytes.dfy`, `Lists.dfy` | shared helpers |

## Where the code does not keep its promise

Each of these is modelled as the code has it, with the exact condition and an input or a run.

- A thread whose wait is cancelled, or fails, can leave others asleep on a free lock, and readers on a lock
  that is only held for reading. `LeavingLosesWakeupExactly` says exactly when; `CancelledWriterStrandsReader`
  and `CancelledWriterHoldsUpReader` give runs.
- The ring writer wraps without looking on which side of the head the reader is. `GuardExact` says for every
  state and block whether a push is right: under the guard, or with nothing to lose, or in the freak state
  `SpeltAgain` (`SpeltAgainOccurs` has one). `UnguardedPushIsReachable` gives a run to a push that is not.
- A push into the stretching queue may give a bucket up and so fill the rest of the ring, which then
  looks empty. `CycleQueue.Push` says exactly when; `OverrunIsReachable` gives a run.
- `eg_ht_insert` computes its chain before it resizes. `HashTable.Insert` says exactly when the new key is
  lost to `eg_ht_find` (`PlaceSurvives` fails), `LosesAKey` runs into it, and `Resize` finds the key again.
  `DefaultSizesSurvive`: the default sizes never lose one.
- `build_udp_headers` runs before every round until the first datagram is known to be gone, so once more after the
  only datagram of a response, and then writes the entry behind it. `RespondUdp` says exactly when that entry lies
  outside the array (`behind`); `HeadersBehindTheArray` gives the buffers.
- A record of length 0 makes `readvrec` return 0, as if the peer had gone. `DeliveredExactly`: all
  records arrive if and only if none is empty.
- Map_Cgi_Params refuses a bare name and anything behind it, a bare name at the very end, and a second
  separator at the end, and it binds what it has read until then. `CodeExact` gives the strings it
  accepts, `ItemsCode` the same for what forms send, `ShapeParsed` what is bound in either case, and
  `BareNameIsAnError` an input.
- With no producer and items to consume, the consumer sleeps for ever: `NeverDeadlocked` and `CountsAddUp`
  say that this is the only exception, `NoProducersNoItems` gives the run.
- The command reader takes the carriage return off a line (c_base_20140528/ais.c:1316), but not when it is
  the whole line: `LineDropsCr`.
- The typos of `pthread_rwlock.c` (`rw_redcount`, `rw_ref_count`, `MAGIC`, `elst`) are read as
  `rw_refcount`, `rw_refcount`, `RW_MAGIC` and `else`.

## Model

| member | source | states |
|---|---|---|
| RwLockModel.StepKeepsCounted | linux_demo/unp2/pthread_rwlock.c:87-224 | every atomic section, also of a cancelled or failing wait, keeps the counters exact: -1 for one writer and no reader, else the number of read locks; wait counters are the numbers of waiting threads |
| RwLockModel.CountedOverRuns | linux_demo/unp2/pthread_rwlock.c:87-300 | the same over every run of any number of threads |
| RwLockModel.Exclusion | linux_demo/unp2/pthread_rwlock.c:103-224 | in every reachable state, a writer excludes all readers and all other writers |
| RwLockModel.NoNewReadersWhileWriterWaits | linux_demo/unp2/pthread_rwlock.c:113-124 | while a writer waits no event raises the number of read locks |
| RwLockModel.DestroyExact | linux_demo/unp2/pthread_rwlock.c:87-100 | destroying succeeds exactly when no thread holds the lock or waits for it |
| RwLockModel.CallsTakeExactly | linux_demo/unp2/pthread_rwlock.c:103-196 | a reader gets the lock at once exactly when no writer has it or waits, a writer exactly when nobody has it; otherwise the try calls change nothing and the others sleep; no other thread is touched |
| RwLockModel.UnlockGivesUpOne | linux_demo/unp2/pthread_rwlock.c:208-212 | a holder's unlock gives up exactly one lock, its own; anybody else's gives up none |
| RwLockModel.UnlockWakesOnly | linux_demo/unp2/pthread_rwlock.c:214-222 | whom an unlock wakes, thread by thread: chosen writers once nobody has the lock, readers once no writer waits, nobody else |
| RwLockModel.LastUnlockAdmitsWriter | linux_demo/unp2/pthread_rwlock.c:199-224 | after the last holder's unlock a waiting writer is awake whose next section takes the lock |
| RwLockModel.UnlockWakes | linux_demo/unp2/pthread_rwlock.c:199-224 | an unlock that frees the lock wakes a waiting writer; one after which readers may enter wakes every waiting reader |
| RwLockModel.NoLostWakeupOverRuns | linux_demo/unp2/pthread_rwlock.c:103-224 | no lost wakeup: in every run in which no wait is cancelled or fails, a free lock with waiting writers has a writer already woken, and no reader sleeps while readers may enter |
| RwLockModel.FreeLockIsTaken | linux_demo/unp2/pthread_rwlock.c:103-176 | then one further section of a woken thread takes the lock |
| RwLockModel.ReadersGetIn | linux_demo/unp2/pthread_rwlock.c:103-124 | and while readers may enter, one further section of any waiting reader lets it in |
| RwLockModel.LeavingLosesWakeupExactly | linux_demo/unp2/pthread_rwlock.c:113-169 | a cancelled or failing wait breaks the wakeup invariant if and only if the stated condition holds before it |
| RwLockModel.CancelledWriterStrandsReader | linux_demo/unp2/pthread_rwlock.c:292-300 | a reachable state where a reader sleeps on a free lock nobody else will take |
| RwLockModel.CancelledWriterHoldsUpReader | linux_demo/unp2/pthread_rwlock.c:292-300 | a reachable state where a reader sleeps on a lock held for reading that the next reader to call gets |
| RwLockModel.RwLock.TryRdLock | linux_demo/unp2/pthread_rwlock.c:131-148 | the new state, and EINVAL or EBUSY exactly when it is the old one |
| RwLockModel.RwLock.TryWrLock | linux_demo/unp2/pthread_rwlock.c:179-196 | likewise for writing |
| RwLockModel.RwLock.CondWait | linux_demo/unp2/pthread_rwlock.c:116 | a sleep is a legal run of the others that ends with this thread woken |
| RwLockModel.RwLock.RdLock | linux_demo/unp2/pthread_rwlock.c:103-128 | the wait loop: with any runs of other threads in between, it is a legal run of the state machine; it ends with the lock when no wait failed, else with the error of the first that did |
| RwLockModel.RwLock.WrLock | linux_demo/unp2/pthread_rwlock.c:151-176 | likewise for writing |
| RwLockModel.RwLock.Unlock | linux_demo/unp2/pthread_rwlock.c:199-224 | the unlock section that the lemmas about unlocking speak of, and its code |
| RwLockModel.RwLock.CancelWait | linux_demo/unp2/pthread_rwlock.c:283-300 | the two cancel handlers |
| RwLockModel.RwLock.DestroyLock | linux_demo/unp2/pthread_rwlock.c:87-100 | destroy: EINVAL exactly for a wrong magic number, EBUSY exactly when held or waited for, and only success changes anything |
| ShmQueueModel.PadKeepsContents | c_base_20140528/Shm_Queue.cpp:315-346 | padding and wrapping the writer does not change what the reader will decode |
| ShmQueueModel.PushRefines | c_base_20140528/Shm_Queue.cpp:227-346 | under the guard a push that succeeds appends its block to the decoded contents; one that fails changes no content; it succeeds exactly when there is room; full never looks empty |
| ShmQueueModel.GuardExact | c_base_20140528/Shm_Queue.cpp:315-346 | for every valid state and every block that passes check_mb: a push keeps the promise if and only if the guard holds, or the head is at the start, or one pad written over another spells the lost blocks again |
| ShmQueueModel.LowerBlocksUnread | c_base_20140528/Shm_Queue.cpp:330-343 | after an unguarded wrap the reader misses blocks if the header at the tail survives or it still wraps there |
| ShmQueueModel.PadOverPad | c_base_20140528/Shm_Queue.cpp:330-343 | the header that two overlapping pads leave at the tail, field by field |
| ShmQueueModel.SpeltAgainOccurs | c_base_20140528/Shm_Queue.cpp:330-343 | a state of the third kind |
| ShmQueueModel.PopRefines | c_base_20140528/Shm_Queue.cpp:125-224 | a pop takes the oldest block, reports empty exactly when there is none, and reaches no error exit |
| ShmQueueModel.ChecksAgree | c_base_20140528/Shm_Queue.cpp:100-121 | a request passes check_mb exactly when its bytes in memory pass the reader's check |
| ShmQueueModel.AcceptsExactly | c_base_20140528/Shm_Queue.cpp:227-346 | a guarded push succeeds exactly for lengths 12 to 40972, types from 0 and room in bytes |
| ShmQueueModel.FirstComesBack | c_base_20140528/Shm_Queue.cpp:125-276 | an unused queue takes any such block it can hold, and the next pop returns that block |
| ShmQueueModel.GivesOnlyWhatIsThere | c_base_20140528/Shm_Queue.cpp:125-212 | on any bytes at all: pop gives a block exactly when one with a possible header lies wholly in the part it reads, and otherwise exits, unless the queue is empty |
| ShmQueueModel.StepFifo | c_base_20140528/Shm_Queue.cpp:125-370 | one guarded operation of a run keeps the order of blocks |
| ShmQueueModel.FifoOverRuns | c_base_20140528/Shm_Queue.cpp:125-370 | over every sequence of guarded operations, blocks accepted are the blocks delivered followed by the contents, in order |
| ShmQueueModel.UnguardedPushIsReachable | c_base_20140528/Shm_Queue.cpp:330-343 | a run from the empty queue to a push that loses blocks |
| ShmQueueModel.ShmQueue.AlignQueueHead | c_base_20140528/Shm_Queue.cpp:315-346 | in place: pad and wrap as specified, or refuse and change nothing |
| ShmQueueModel.ShmQueue.TryPushWait | c_base_20140528/Shm_Queue.cpp:279-313 | push_wait without blocking, as specified |
| ShmQueueModel.ShmQueue.Push | c_base_20140528/Shm_Queue.cpp:227-276 | the byte area and offsets become those of the specified push |
| ShmQueueModel.ShmQueue.AlignQueueTail | c_base_20140528/Shm_Queue.cpp:215-224 | the tail moves as specified |
| ShmQueueModel.ShmQueue.Pop | c_base_20140528/Shm_Queue.cpp:125-212 | the specified pop, with the block read out of the area |
| CycleQueueModel.RingIsAllBuckets | ngix_module/AIS/cyclequeue.c:138-190 | the ring of any bucket stack visits every node of every bucket exactly once |
| CycleQueueModel.BucketPlace | ngix_module/AIS/cyclequeue.c:192-204 | wherever the ring is read from outside the newest bucket, that bucket lies in it whole and in order behind the node it was spliced to, and the ring without it is the ring of the buckets below: shrinking undoes growing |
| CycleQueueModel.CycleQueue.EmptyExact | ngix_module/AIS/cyclequeue.c:104-109 | head == tail if and only if nothing is stored |
| CycleQueueModel.CycleQueue.IsFull | ngix_module/AIS/cyclequeue.c:117 | the full test is exact |
| CycleQueueModel.CycleQueue.Inc | ngix_module/AIS/cyclequeue.c:138-190 | a fresh bucket as large as the newest is spliced in behind the tail; contents stay |
| CycleQueueModel.CycleQueue.HeadOutsideIdle | ngix_module/AIS/cyclequeue.c:122-128 | when the shrink test holds the head is outside the newest bucket |
| CycleQueueModel.CycleQueue.NoLiveNodeInIdle | ngix_module/AIS/cyclequeue.c:122-128 | and no node in it is live, though only its ends were looked at |
| CycleQueueModel.CycleQueue.IdleExact | ngix_module/AIS/cyclequeue.c:122-128 | the shrink test holds exactly when neither a live node nor the tail is in the newest bucket |
| CycleQueueModel.CycleQueue.Dec | ngix_module/AIS/cyclequeue.c:192-204 | the newest bucket goes, contents and the ring below stay |
| CycleQueueModel.CycleQueue.Push | ngix_module/AIS/cyclequeue.c:111-136 | the value is appended, the stack grows exactly when full and shrinks exactly when idle; in the one case where shrinking fills the ring it then looks empty |
| CycleQueueModel.OverrunIsReachable | ngix_module/AIS/cyclequeue.c:111-216 | a run from an empty queue to two stored values and head == tail |
| CycleQueueModel.CycleQueue.Pop | ngix_module/AIS/cyclequeue.c:206-216 | the oldest value, or NULL when there is none |
| HashTableModel.EgNextPrime | ngix_module/AIS/hashtable.c:189-213 | the binary search returns the least list prime not below n, and the last one when there is none |
| HashTableModel.ListedIsItsOwnNext | ngix_module/AIS/hashtable.c:189-213 | a listed prime is mapped to itself |
| HashTableModel.PrimesAscend | ngix_module/AIS/hashtable.h:17-27 | the list is strictly ascending |
| HashTableModel.PushChain | ngix_module/AIS/hashtable.c:284-294 | linking in front keeps every chain well linked and in its place |
| HashTableModel.DropChain | ngix_module/AIS/hashtable.c:383-397 | all four unlinking cases take exactly one entry out of its chain |
| HashTableModel.Untraverse | ngix_module/AIS/hashtable.c:399-413 | and out of the traversal list |
| HashTableModel.Rebuild | ngix_module/AIS/hashtable.c:315-327 | rebuilding from the traversal list puts every entry into chain hash % size |
| HashTableModel.HashTable.constructor | ngix_module/AIS/hashtable.c:220-249 | an empty table of the next listed size |
| HashTableModel.HashTable.Find | ngix_module/AIS/hashtable.c:361-375 | the entry of the key, unless it is in another chain than its hash selects; on a table without such entries finds agree with the map |
| HashTableModel.HashTable.DefaultSizesSurvive | ngix_module/AIS/hashtable.c:189-213 | with a listed size the index computed before a resize is right after it |
| HashTableModel.HashTable.SmallSizesHavePlace | ngix_module/AIS/hashtable.c:268-289 | up to the largest listed prime the early index lies inside the new array |
| HashTableModel.HashTable.Insert | ngix_module/AIS/hashtable.c:261-302 | on any linked table, for a key that is not lost: the entries gain the binding if and only if the key is new; a resize happens exactly when the table is overfull, and finds all lost keys again; the new key is lost to lookups if and only if the resize moves its place |
| HashTableModel.HashTable.InsertBucket | ngix_module/AIS/hashtable.c:69-99 | the same for a caller's bucket, without resizing: the lost keys are those of before |
| HashTableModel.HashTable.ValidExact | ngix_module/AIS/hashtable.c:361-375 | every entry is in the chain its hash selects if and only if no key is lost |
| HashTableModel.HashTable.Resize | ngix_module/AIS/hashtable.c:304-330 | any positive size: same entries, same order, same map, and lost entries are in their right chains again |
| HashTableModel.HashTable.Erase | ngix_module/AIS/hashtable.c:377-420 | one entry goes; the iterator stands on what followed it |
| HashTableModel.HashTable.Remove | ngix_module/AIS/hashtable.c:332-341 | on any linked table: the map without the key, but a lost key stays and the result says so |
| HashTableModel.HashTable.Clear | ngix_module/AIS/hashtable.c:343-359 | the empty map; every entry is freed once |
| HashTableModel.HashTable.ElementsCount | ngix_module/AIS/hashtable.c:299 | `elements` is the number of keys |
| HashTableModel.LosesAKey | ngix_module/AIS/hashtable.c:261-330 | a run of inserts and a resize after which an insert reports success and a find of the key returns nothing |
| HtableModel.Link | ngix_module/AIS/htable.c:35-42 | linking in front of the hashed chain |
| HtableModel.Unlink | ngix_module/AIS/htable.c:150-157 | unlinking takes exactly one entry out |
| HtableModel.RelinkAll | ngix_module/AIS/htable.c:84-89 | growth moves every entry to its new chain, loses none, and counts them again |
| HtableModel.FindAgreesWithMap | ngix_module/AIS/htable.c:111-137 | with distinct keys a lookup agrees with the map |
| HtableModel.EnterUpdatesMap | ngix_module/AIS/htable.c:96-107 | entering a new key is a map update |
| HtableModel.DeleteUpdatesMap | ngix_module/AIS/htable.c:141-167 | deleting is a map removal |
| HtableModel.ChainsFlatten | ngix_module/AIS/htable.c:219-222 | the chains one after the other list every entry exactly once |
| HtableModel.RestInsert | ngix_module/AIS/htable.c:35-42 | a new entry leaves what the cursor has still to visit as it was, but for itself |
| HtableModel.Htable.constructor | ngix_module/AIS/htable.c:46-70 | size at least 13 and odd, no entries, no cursor |
| HtableModel.Htable.Grow | ngix_module/AIS/htable.c:74-91 | twice the size plus one, the same entries; `used`, counted afresh, is what it was |
| HtableModel.Htable.Enter | ngix_module/AIS/htable.c:96-107 | one more entry, with distinct keys the map gains the binding; growth exactly when full and no cursor is live |
| HtableModel.Htable.Locate | ngix_module/AIS/htable.c:111-137 | the first match of the chain, or nothing when no entry has the key; with distinct keys, what the map says |
| HtableModel.Htable.Delete | ngix_module/AIS/htable.c:141-167 | the located entry goes, `used` follows; with distinct keys the map loses the key |
| HtableModel.Htable.List | ngix_module/AIS/htable.c:211-228 | exactly `used` slots, every entry once, then NULL |
| HtableModel.Htable.Sequence | ngix_module/AIS/htable.c:232-256 | FIRST starts over, NEXT returns the first unvisited entry, anything else ends |
| HtableModel.Htable.Traverse | ngix_module/AIS/htable.c:96-107 | a traversal with entries entered between its steps returns every entry there at FIRST exactly once; without inserts, exactly the table's entries |
| OutputModel.PlanMessage | c_base_20140528/ais.c:383-410 | a new message keeps the plan's bounds and tiling |
| OutputModel.PlanEntry | c_base_20140528/ais.c:726-734 | a new entry keeps them: UDP and first TCP messages at most UDP_MAX_PAYLOAD_SIZE bytes, at most IOV_MAX entries, messages tile the entries |
| OutputModel.TiledStart | c_base_20140528/ais.c:675-680 | message i starts at the sum of the earlier lengths |
| OutputModel.Rebase | c_base_20140528/ais.c:675-680 | after growth, when only the lengths of the messages still count, re-basing restores where each starts |
| OutputModel.Output.EnsureIovSpace | c_base_20140528/ais.c:664-684 | the array doubles exactly when full; plan unchanged |
| OutputModel.Output.AddMsghdr | c_base_20140528/ais.c:383-419 | a new message, with room for the header over UDP; the mutual recursion terminates |
| OutputModel.Output.AddRound | c_base_20140528/ais.c:701-739 | one round takes as much as fits: a rest only when the message is full, a new message only when the old one takes no more |
| OutputModel.Output.AddIov | c_base_20140528/ais.c:694-741 | the planned bytes grow by exactly the buffer |
| OutputModel.PlanIsPending | c_base_20140528/ais.c:694-741 | a finished UDP plan is a list of datagram payloads that fit, and together they are the planned bytes |
| OutputModel.PlanIsSendable | c_base_20140528/ais.c:1499-1510 | a finished plan describes exactly the planned bytes |
| OutputModel.Advance | c_base_20140528/ais.c:1519-1523 | dropping a whole entry drops exactly its bytes |
| OutputModel.Shorten | c_base_20140528/ais.c:1527-1530 | cutting an entry drops exactly the bytes sent |
| OutputModel.Output.Consume | c_base_20140528/ais.c:1517-1530 | after a short write, exactly the accepted bytes are gone |
| OutputModel.Output.Transmit | c_base_20140528/ais.c:1499-1555 | bytes sent and bytes left are the bytes left before; complete exactly when no message is left; otherwise incomplete exactly when something was taken, soft error exactly when it would block and the event was registered, hard error in all other cases |
| OutputModel.Output.BuildUdpHeaders | c_base_20140528/ais.c:747-781 | every datagram not yet gone has its header; payloads stay, also when it runs again after the first is gone |
| OutputModel.NextDatagram | c_base_20140528/ais.c:1509-1512 | what sendmsg is offered is the next header and payload |
| OutputModel.DatagramGone | c_base_20140528/ais.c:1517-1530 | the other datagrams still wait |
| OutputModel.HeaderSays | c_base_20140528/ais.c:769-776 | up to 65535, a peer reads request, number and count from the header in network order |
| OutputModel.AnyOrderReassembles | c_base_20140528/ais.c:747-781 | from the numbers alone the datagrams give the payloads together again, in whatever order and however often they arrive |
| OutputModel.Output.SendDatagram | c_base_20140528/ais.c:1811-1817 | one round over UDP: the next datagram goes out whole, or nothing changes; complete exactly when all are gone |
| OutputModel.Output.RespondUdp | c_base_20140528/ais.c:694-781 | plan any buffers, send with any answers: the datagrams sent are the first of n, each its numbered header and payload, in order; the payloads together are the buffers; complete means all of them; a peer that gets them in any order puts the buffers together again; if every call takes its datagram, one call more than there are datagrams completes it |
| OutputModel.HeadersBehindTheArray | c_base_20140528/ais.c:762-766 | 399 buffers of one byte, after which the header of the only datagram goes behind the entry array |
| OutputModel.Output.Respond | c_base_20140528/ais.c:694-741 | over TCP: plan any buffers, transmit with any answers of sendmsg and event updates: sent then left is their concatenation, complete means all of it was sent, and it ends only then or when a send fails; if no buffer is empty and every call takes something, it is complete after at most one call more than there are bytes |
| InputModel.CommandsAppend | c_base_20140528/ais.c:1279-1332 | the lines of a longer stream are those of the shorter one, then those of its rest |
| InputModel.ChunkingDoesNotMatter | c_base_20140528/ais.c:1383-1439 | the commands depend on the bytes received and not on how they were split |
| InputModel.LineDropsCr | c_base_20140528/ais.c:1316-1319 | the carriage return at the end of a line goes if and only if the line is more than that |
| InputModel.SentLinesComeBack | c_base_20140528/ais.c:1279-1332 | lines sent with a newline, or a carriage return and a newline, come back as they were |
| InputModel.HopelessExact | c_base_20140528/ais.c:1295-1311 | a long window is kept exactly when it starts with at most 100 spaces and "get " or "gets " |
| InputModel.Input.ReadLoop | c_base_20140528/ais.c:1395-1438 | reads until the kernel has no more, doubling at most four times; the window grows by what arrived |
| InputModel.Input.TryReadNetwork | c_base_20140528/ais.c:1383-1439 | compaction and reading keep commands passed on and window together equal to all bytes received; the result for every answer |
| InputModel.Input.IsHopeless | c_base_20140528/ais.c:1295-1311 | the test on a first kilobyte without a newline |
| InputModel.Input.TryReadCommand | c_base_20140528/ais.c:1279-1332 | the next line, carriage return removed and NUL behind it in memory, or more bytes are needed, or give up |
| MachineModel.Conn.StepWaiting | c_base_20140528/ais.c:1613-1622 | conn_waiting: reads next and stops when the event was registered, else closes |
| MachineModel.Conn.StepRead | c_base_20140528/ais.c:1625-1641 | conn_read: closes exactly when the stream ended or the read failed, else parses exactly when something arrived, else waits |
| MachineModel.Conn.StepParse | c_base_20140528/ais.c:1644-1650 | conn_parse_cmd: the first line goes to its handler, or the loop waits or closes |
| MachineModel.Conn.StepNewCmd | c_base_20140528/ais.c:1652-1686 | conn_new_cmd: a command is begun exactly while the share lasts; otherwise the loop stops, and buffered bytes are not forgotten |
| MachineModel.Conn.StepSwallow | c_base_20140528/ais.c:1749-1792 | conn_swallow: buffered bytes first, then reads; what is still to be thrown away, and the next state, for every answer |
| MachineModel.ReplyFits | c_base_20140528/ais.c:783-820 | every reply fits the write buffer; a text without NUL that fits is the string found there, a longer one gives the too-long message |
| MachineModel.Conn.OutString | c_base_20140528/ais.c:783-820 | the reply with its NUL, or the too-long message |
| MachineModel.Conn.WriteAndFree | c_base_20140528/ais.c:1028-1038 | a buffer of any length as the reply, without NUL |
| MachineModel.Conn.ProcessCommand | c_base_20140528/ais.c:1180-1274 | output starts over; the handler picks the next state |
| MachineModel.Conn.StepSend | c_base_20140528/ais.c:1811-1849 | conn_write and conn_mwrite after assembly: what the kernel took moves to the wire; next command when all is gone, more of the same when something was taken, a wait when it would block and the event was registered, else the end |
| MachineModel.Conn.StepWrite | c_base_20140528/ais.c:1794-1849 | conn_write: assemble once, then send |
| MachineModel.Conn.Step | c_base_20140528/ais.c:1569-1862 | one round of the loop lowers the measure or stops for one of the stated reasons |
| MachineModel.Conn.DriveMachine | c_base_20140528/ais.c:1557-1866 | always stops, for every sequence of answers, and is called again unless it closes; starts at most reqs_per_event commands; reads no more commands than it started, but for one paid for before; closes exactly for a stated cause; when it waits for bytes, every line received has been handed on and every reply sent |
| MachineModel.Conn.LedKeepsWarranted | c_base_20140528/ais.c:1613-1849 | every round keeps it so that the connection is closing if there was a refused event update, an end of stream, a failed read or send, or a handler that closes, and only then or for a hopeless line |
| MachineModel.Conn.AllAnswered | c_base_20140528/ais.c:1613-1650 | while it waits for bytes the commands are the lines of all bytes received, and the wire holds all replies |
| MachineModel.Conn.RepliesInOrder | c_base_20140528/ais.c:1557-1866 | from stream to wire: what was sent is a beginning of the replies to the lines of all bytes received, and all of it when nothing is pending |
| DispatcherModel.StepKeepsConserved | linux_demo/unp1/server_serv_sockpair.c:54-178 | every step of parent or child keeps one token per busy child and `navail` exact |
| DispatcherModel.ConservedOverRuns | linux_demo/unp1/server_serv_sockpair.c:54-180 | over every run; "no available children" and the failing read are unreachable |
| DispatcherModel.OneChildPerConnection | linux_demo/unp1/server_serv_sockpair.c:64-75 | every accepted connection is with exactly one child, at one place, once |
| DispatcherModel.ScanEndsAtBreak | linux_demo/unp1/server_serv_sockpair.c:81-90 | while the scan goes on a ready child is still ahead, and `nsel` is 1 exactly when one is left: the early exits skip nobody |
| DispatcherModel.NeverDeadlocked | linux_demo/unp1/server_serv_sockpair.c:54-180 | when nobody can move, every child is idle and the listening socket is watched |
| DispatcherModel.Dispatcher.ChildStep | linux_demo/unp1/server_serv_sockpair.c:155-180 | a child takes its descriptor or sends its done byte |
| DispatcherModel.Dispatcher.AcceptOne | linux_demo/unp1/server_serv_sockpair.c:60-79 | the first idle child gets the connection |
| DispatcherModel.Dispatcher.Scan | linux_demo/unp1/server_serv_sockpair.c:81-90 | with children running in between, every ready child is heard, and the loop leaves at its break |
| DispatcherModel.Dispatcher.Round | linux_demo/unp1/server_serv_sockpair.c:54-91 | one round of the parent's loop, with children running at any point of it, is a legal run of the machine; every child that was ready is heard; the new `navail`; it blocks exactly when nothing is ready |
| ProdConsModel.StepKeepsInv | linux_demo/unp2/prodcons6.c:83-123 | every action of every thread keeps locks, array, counters and consumer right |
| ProdConsModel.InvOverRuns | linux_demo/unp2/prodcons6.c:83-123 | over every interleaving of any number of producers the i-th value found is i |
| ProdConsModel.ReadsBehindTheProducers | linux_demo/unp2/prodcons6.c:119-120 | the place the consumer reads is already filled and no longer written |
| ProdConsModel.CountsAddUp | linux_demo/unp2/prodcons6.c:71-74 | when all producers have returned their counts add up to nitems, if and only if there is a producer or nothing to produce |
| ProdConsModel.NeverDeadlocked | linux_demo/unp2/prodcons6.c:83-123 | until the consumer is done some thread can step without a spurious wakeup, if and only if there is a producer or the consumer is awake |
| ProdConsModel.NoProducersNoItems | linux_demo/unp2/prodcons6.c:54-79 | the run in which the consumer sleeps for ever, without producers |
| ProdConsModel.RunsAreBounded | linux_demo/unp2/prodcons6.c:83-123 | the length of a run is bounded, two steps more for each spurious wakeup |
| ProdConsModel.StartBound | linux_demo/unp2/prodcons6.c:54-79 | the bound in items and threads |
| ProdConsModel.AllDelivered | linux_demo/unp2/prodcons6.c:108-123 | a finished consumer has found 0 up to nitems and nothing is left over |
| ProdConsModel.Program.Put | linux_demo/unp2/prodcons6.c:86-95 | the first critical section |
| ProdConsModel.Program.Announce | linux_demo/unp2/prodcons6.c:97-101 | the second |
| ProdConsModel.Program.RunProducer | linux_demo/unp2/prodcons6.c:83-105 | a producer's action, or nothing while it is blocked |
| ProdConsModel.Program.RunConsumer | linux_demo/unp2/prodcons6.c:108-123 | the consumer's action, or nothing while it is blocked |
| CgiModel.X2cIsHex | ngix_module/AIS/cgi_util.cpp:5-13 | on hexadecimal digits of either case x2c yields their value |
| CgiModel.UnescapeUrl | ngix_module/AIS/cgi_util.cpp:15-26 | decoding in place; the write index never passes the read index |
| CgiModel.ReadParams | ngix_module/AIS/cgi_util.cpp:43-89 | the token loop computes the specified table and code |
| CgiModel.MapCgiParams | ngix_module/AIS/cgi_util.cpp:28-92 | the same for a C string, and -1 for NULL |
| CgiModel.EncodesDecodes | ngix_module/AIS/cgi_util.cpp:15-26 | any form-encoding of a text decodes to it |
| CgiModel.QueryRoundTrip | ngix_module/AIS/cgi_util.cpp:28-92 | any list of pairs with non-empty names and no NUL, in any encoding, gives 0 and exactly its bindings in order |
| CgiModel.BindLast | ngix_module/AIS/cgi_util.cpp:77-79 | the last pair of a name wins |
| CgiModel.BindKeeps | ngix_module/AIS/cgi_util.cpp:77-79 | other names keep what they had |
| CgiModel.NamesOnlyGrow | ngix_module/AIS/cgi_util.cpp:62-83 | parsing unbinds no name and never binds the empty one |
| CgiModel.FormEncodes | ngix_module/AIS/cgi_util.cpp:52-57 | every text has an encoding: the usual encoder makes one |
| CgiModel.BareNameIsAnError | ngix_module/AIS/cgi_util.cpp:62-71 | for every text as a lone name: -3, and it is bound all the same; 0 with one final separator |
| CgiModel.EveryStringHasAShape | ngix_module/AIS/cgi_util.cpp:44-89 | every string is some fields, each a pair and a separator, and one of five endings |
| CgiModel.ShapeParsed | ngix_module/AIS/cgi_util.cpp:44-89 | the shape decides code and table: -3 for two of the endings, 0 for the others, and in either case the fields and the last name are bound in order |
| CgiModel.CodeExact | ngix_module/AIS/cgi_util.cpp:28-92 | the code is 0 if and only if the string is fields followed by nothing, by a pair, or by a name and one "&"; otherwise -3 |
| CgiModel.ItemsCode | ngix_module/AIS/cgi_util.cpp:28-92 | for pairs and bare names joined with "&" and any number of final "&": 0 if and only if all but the last are pairs and the last is a pair with at most one final "&" or a name with exactly one |
| FramingModel.DeliveredInOrder | linux_demo/effective_tcp_ip/vsr_server.c:42-70 | each record intact if it fits, reported if not, with the stream at the next record |
| FramingModel.DeliveredExactly | linux_demo/effective_tcp_ip/vsr_server.c:42-70 | all records are delivered if and only if none is empty |
| FramingModel.DeliveredUpToTheCut | linux_demo/effective_tcp_ip/vsr_server.c:42-70 | a stream that breaks off inside a record delivers the records before it and ends |
| FramingModel.Socket.ReadN | linux_demo/effective_tcp_ip/vsr_server.c:18-39 | len bytes or what there is, through interruptions and any chunking; an error only if a recv failed |
| FramingModel.Socket.SkipRecord | linux_demo/effective_tcp_ip/vsr_server.c:51-64 | exactly the oversized record is skipped |
| FramingModel.Socket.ReadVrec | linux_demo/effective_tcp_ip/vsr_server.c:42-70 | the delivery the stream says, whatever the chunking |
| FramingModel.Socket.Serve | linux_demo/effective_tcp_ip/vsr_server.c:167-176 | the server writes exactly the fitting records in order and reports the others |
| FramingModel.SendLines | linux_demo/effective_tcp_ip/vsr_client.c:106-112 | the wire holds exactly the frames of the lines |
| ByteBufferModel.IntsRoundTrip | c_base_20140528/buffer/Buffer.h:194-281 | integers of any widths come back in order, whatever follows |
| ByteBufferModel.PutIntIs | c_base_20140528/buffer/Buffer.h:194-209 | the bytes of an integer are its value modulo 256 to the width, read in network order |
| ByteBufferModel.FirstInFirstOut | c_base_20140528/buffer/Buffer.h:93-298 | used as a queue, the readable bytes are what was appended and read less what was retrieved, in order |
| ByteBufferModel.Buffer.MakeSpace | c_base_20140528/buffer/Buffer.h:319-338 | grow or slide; the readable bytes stay, and the assertion on sliding always holds |
| ByteBufferModel.Buffer.EnsureWritableBytes | c_base_20140528/buffer/Buffer.h:164-171 | room for len bytes, readable bytes unchanged |
| ByteBufferModel.Buffer.AppendBytes | c_base_20140528/buffer/Buffer.h:152-157 | the readable bytes gain exactly the new ones at the end, growing or sliding if need be |
| ByteBufferModel.Buffer.PrependBytes | c_base_20140528/buffer/Buffer.h:283-289 | the readable bytes gain the new ones in front, within the room there |
| ByteBufferModel.Buffer.RetrieveBytes | c_base_20140528/buffer/Buffer.h:93-104 | retrieve from the front, resetting when all is taken |
| ByteBufferModel.Buffer.RetrieveAsString | c_base_20140528/buffer/Buffer.h:139-145 | the string is what was taken |
| ByteBufferModel.Buffer.UnwriteBytes | c_base_20140528/buffer/Buffer.h:185-189 | drop from the end |
| ByteBufferModel.Buffer.AppendInt | c_base_20140528/buffer/Buffer.h:194-209 | append an integer in network order |
| ByteBufferModel.Buffer.ReadInt | c_base_20140528/buffer/Buffer.h:215-261 | the value of the first bytes, which are then gone |
| ByteBufferModel.Buffer.ReadFrom | c_base_20140528/buffer/Buffer.cpp:15-47 | one readv: what overflows goes through the second buffer and is appended |
| ByteBufferModel.Buffer.ShrinkTo | c_base_20140528/buffer/Buffer.h:291-298 | the same readable bytes in a new buffer with the reserve |
| ByteBufferModel.Buffer.FindCrlf | c_base_20140528/buffer/Buffer.h:62-74 | the first "\r\n" from a position on |
| ByteBufferModel.Buffer.DoAll | c_base_20140528/buffer/Buffer.h:93-298 | any operations one after the other do to the readable bytes what they do to a plain byte string, up to the first that an assertion forbids; each read may bring at least 65536 bytes |

## Left out

- Delete: only without a live cursor; deleting the cursor's entry leaves it dangling.
- Traverse: no deletes during a traversal, and no duplicate keys in the claims about maps.
- UnescapeUrl: every percent sign must have its two characters; for a truncated escape the original reads, and goes on reading, beyond the end of the string.
- ReadParams: as for MapCgiParams.
- MapCgiParams: every percent sign must have its two characters inside its own piece; a truncated escape makes the original read beyond the string.
- ShapeParsed: as for MapCgiParams.
- CodeExact: as for MapCgiParams.
- ItemsCode: as for MapCgiParams.
- DriveMachine: TCP only; a hard send error over UDP goes back to reading, and the listening state is not modelled.
- RepliesInOrder: a handler is a function of its number and its line, so replies that depend on how much is buffered are not covered.
- RespondUdp: the kernel takes a datagram whole or not at all; the memory that holds the header bytes is not modelled, only what is in it.
- Serve: after a recv that fails inside a record the reader is no longer at a record boundary, and nothing is claimed from there on.
- SendLines: each send takes the whole packet it is given.
- InsertBucket: as for Insert, a key that is lost already is excluded.
- Insert: a key that is lost already would be entered a second time, which is excluded; keys are compared by equality, so a comparison that ignores case beside a hash that does not is not covered; a table larger than the largest listed prime may shrink under the early index, and the original then writes outside its array, which is excluded (`PlaceExists`).
- ReadN: lengths stay below 2^31, as the `int` results of the original need; an endless row of interruptions is not modelled.
- Allocation failure, in every core.
- Blocking push and pop of the shared queue, which sleep while they hold the semaphore; the debug copies into 20-byte arrays.
- Block types equal to PAD_REQUEST, which a reader would take for padding.
- Value buffers of the stretching queue, and NULL values, which mark free nodes.
- The particular hash functions: every hash is covered.
- `get_newsize` functions of a caller, which may change the size inside an insert; `Resize` itself takes any positive size.
- Sockets, select, semaphores, libevent, fork and signals, except as results or steps.
- `findEOL(start)` of the byte buffer, whose length does not shrink with the offset; `swap` and capacity.
- The checksum, logging, array list and the other producer/consumer variants.
