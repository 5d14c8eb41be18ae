# SoftBus core: a verified model

This project models the parts of the SoftBus service whose behaviour is hardest to see from the
code, and proves what they are meant to guarantee. Every `.dfy` file is one module;
`dafny verify dfyconfig.toml` checks them all.

| component | modules | main results |
|---|---|---|
| lock-free ring queue | `Word32`, `RingQueue`, `RingQueueProofs`, `RingQueueReturns`, `RingQueueLimits`, `RingQueueSole`, `RingQueueSequential` | first in, first out for every interleaving, in the order callers were answered, also with a side left to one thread; no deadlock; the 2^32 bound is sharp |
| BLE fragmentation | `BleTrans`, `BleTransProofs` | every message is rebuilt from its fragments in any order and interleaving |
| record database and device registry | `Database`, `RecordDb`, `DeviceRegistry` | the bitmap is a set with no spare bit handed out; one record per device; the last accepted report is what is found; exact backup |
| intrusive list and message looper | `CommonList`, `Looper`, `MessageLooper` | pointers refine sequences; dispatch order; no message overtaken without bound; every message freed once |
| session keys and frames | `SessionKeys`, `AuthCrypto`, `AuthBuffers` | newest keys kept and found exactly for their device; the bytes of a frame; frames decrypt exactly while their key is stored |
| authentication order | `AuthOrder`, `AuthSteps`, `AuthStore` | the outcome does not depend on the order of events; at the grain of single tests and writes it is right if and only if none of four overtakings occurs |
| send rate, sequence numbers | `Congestion`, `SeqNumbers` | 32-bit arithmetic equals exact arithmetic, with the exact limit; numbers repeat with an exact period |
| base listener | `BaseListener` | descriptor lists and select sets agree |

Most components have two layers. Transition functions on plain values say what one call, event or
critical section does, and lemmas over lists of events state what every run keeps. Classes and
methods written like the C code (fields updated in place, loops over arrays and linked nodes) are
proved to make exactly those transitions. `Basics` holds what several components share.

Code under one mutex is one event. Two components hold no mutex over what they do. In the ring queue
each shared access is an event of its own, and a history of unbounded counters is recorded beside the
32-bit fields, which the steps never read. The authentication handlers test and write the session
without a lock, and `AuthOnSessionKeyReturned` gives its lock up before its last branch: `AuthOrder`
takes each handler as one event, `AuthSteps` takes them apart into single tests and writes, and
`AuthStore` ties the two together.

## Where the code meets a property only under a condition

- A ring queue claim may be up to 2^32 - 1 tickets late. `RingQueueLimits.LateSwapOverruns`
  and `RingQueueLimits.LateSwapUnderruns` show that one more is too late. A run is called timely when no claim is later than that.
- The theta formula is exact if and only if its product stays below 2^32 (`Congestion.ThetaExact`).
  The module accepts mtu up to 65536, while the fastest link is exact only up to 22369
  (`Congestion.LargestSafeMtu`). The WLAN path does not check the transmit rate; up to that mtu it is
  exact up to 2503 and no further (`Congestion.LargestExactTx`).
- The authentication handlers end right, in all interleavings of their steps, if and only if none of
  four overtakings occurs (`AuthSteps.RightExactlyUnlessOvertaken`): the peer's data can be lost
  (`AuthSteps.DeliveryCanBeLost`), the key-generated callback missed
  (`AuthSteps.NoticeCanBeMissed`), the data handed over too early
  (`AuthSteps.DeliveryCanBeEarly`), or the saved block taken by the post before its length is written
  (`AuthSteps.DeliveryCanBeTorn`).
- Data of 2^31 - 28 bytes or more is refused by encryption, because the packet length is passed
  through an `int32_t` (`AuthCrypto.EncryptExact`).
- A frame can be decrypted exactly while its key is stored (`AuthCrypto.FrameSurvives`), and saved
  peer data is delivered exactly if the key list still has the session's number
  (`AuthOrder.HandedOverExactlyIfListed`).
- The comments at lines 168-173 and 287-292 of `softbus_queue.h` say that the available count is
  between zero and the queue length. With several threads the tail is read after the head and the
  count can be larger; the proofs follow the code and show that the compare-and-swap then fails
  (`RingQueueProofs.ProducerClaims`, `RingQueueProofs.ConsumerClaims`).
- `IS_POWER_OF_2` also accepts zero (`Word32.PowerOfTwoTestExact`).
- Sequence numbers repeat if and only if their positions differ by a multiple of 8388607
  (`SeqNumbers.SeqRepeats`).
- Descriptor lists and select sets agree while descriptors are not shared between modules and are
  not listening sockets (`BaseListener.SharedDescriptorIsLost`, `BaseListener.ListeningBitStays`).
- `DestroyBaseListener` gives its lock up between emptying a module's list and releasing its info.
  The release keeps lists and sets in agreement if and only if the list is still empty
  (`BaseListener.ReleaseKeepsExactlyIfEmpty`); `BaseListener.AddDuringDestroy` is a run in which it is not.
- `QueueIsEmpty` and `QueueCountGet` read two counters one after the other. The count is exact if no
  dequeue overtakes the first read, as for the only consumer, and otherwise only modulo the size
  (`RingQueueSole.AnswerMeans`).

## Model

| member | source | states |
|---|---|---|
| RingQueueProofs.FirstInFirstOut | core/common/include/softbus_queue.h:144-325 | Main result for the ring. After every timely run, in every interleaving of any number of enqueuers and dequeuers, started empty on any power-of-two size, the returned values are a prefix of the published values and those a prefix of the claimed values; the unwrapped counters satisfy consumer tail <= consumer head <= producer tail <= producer head <= consumer tail + mask |
| RingQueueProofs.StepKeeps | core/common/include/softbus_queue.h:144-325 | Every event of every thread (call, shared read, compare-and-swap, slot access, spin test, tail write) keeps the invariant that ties the 32-bit fields, the slots, the tickets and each thread's locals to the unbounded counters |
| RingQueueProofs.RunKeeps | core/common/include/softbus_queue.h:144-325 | The invariant holds after every timely run, by induction on its events |
| RingQueueProofs.ProducerReads | core/common/include/softbus_queue.h:158-180 | Reading head and consumer tail, including a stale tail and the queue-full exit, keeps the invariant |
| RingQueueProofs.ProducerClaims | core/common/include/softbus_queue.h:182-184 | A compare-and-swap made while fewer than 2^32 claims have intervened keeps the invariant: if it succeeds there is still room, although the consumer tail it relied on is old |
| RingQueueProofs.ProducerStores | core/common/include/softbus_queue.h:186-196 | Writing the claimed slot overwrites no value that is published and unread and none that another producer holds |
| RingQueueProofs.ProducerPublishes | core/common/include/softbus_queue.h:198-205 | The plain tail increment publishes exactly the next ticket's value |
| RingQueueProofs.ConsumerClaims | core/common/include/softbus_queue.h:301-303 | A timely consumer compare-and-swap never claims a ticket that is not yet published |
| RingQueueProofs.ConsumerFetches | core/common/include/softbus_queue.h:305-308 | The slot read yields the value of the claimed ticket, before any producer may reuse the slot |
| RingQueueProofs.ConsumerPublishes | core/common/include/softbus_queue.h:317-325 | The consumer tail increment releases exactly the oldest claimed ticket |
| RingQueueProofs.ReturnsItsTicket | core/common/include/softbus_queue.h:305-325 | A dequeue returns the value whose ticket is the consumer tail, and the returned values are then the first claimed ones |
| RingQueueProofs.FullMeansFull | core/common/include/softbus_queue.h:159-180 | QUEUE_FULL is answered exactly when the room seen from the head read earlier is zero modulo 2^32; unless 2^32 - mask tickets were claimed since, that is exactly when that head is consumer tail + mask, and then the queue really is full at that moment |
| RingQueueProofs.EmptyMeansEmpty | core/common/include/softbus_queue.h:276-299 | QUEUE_EMPTY is answered exactly when the published count seen from the head read earlier is zero modulo 2^32; unless 2^32 tickets were published since, that is exactly when that head is the producer tail, and then nothing is left to claim |
| RingQueueProofs.TailWritersExclude | core/common/include/softbus_queue.h:198-203 | No two threads of a side are at the non-atomic tail increment together |
| RingQueueProofs.OldestProducerMoves | core/common/include/softbus_queue.h:198-203 | When a producer ticket is outstanding, the thread that holds the ticket equal to the tail is not blocked: its own step brings it one nearer to publishing |
| RingQueueProofs.OldestConsumerMoves | core/common/include/softbus_queue.h:317-322 | The same for the oldest claimed consumer ticket |
| RingQueueProofs.OldestProducerPublishes | core/common/include/softbus_queue.h:186-205 | At most four steps of that thread alone advance the producer tail by one and touch no other thread |
| RingQueueProofs.OldestConsumerPublishes | core/common/include/softbus_queue.h:305-325 | At most four steps of that thread alone advance the consumer tail by one |
| RingQueueProofs.EveryWaiterCanFinish | core/common/include/softbus_queue.h:144-325 | No deadlock: from every reachable state there is a continuation after which no ticket is outstanding, so no thread holds or waits on one |
| RingQueueLimits.LateSwapOverruns | core/common/include/softbus_queue.h:158-184 | The bound on intervening claims is sharp: for every size of at least two there is a run of timely steps after which one compare-and-swap, 2^32 claims late, succeeds on a full queue and claims one ticket too many |
| RingQueueLimits.LateSwapUnderruns | core/common/include/softbus_queue.h:275-303 | The same for dequeuers: a run after which a compare-and-swap 2^32 claims late succeeds on an empty queue and claims a ticket that was never published |
| RingQueueLimits.EnqueueAlone | core/common/include/softbus_queue.h:144-205 | In every reachable state without outstanding tickets and with room left, any idle thread can enqueue any value: its own steps succeed, the value is published next, and no other thread is touched |
| RingQueueLimits.DequeueAlone | core/common/include/softbus_queue.h:261-325 | In every such state with a value stored, any idle thread can dequeue: its own steps return the oldest value |
| RingQueueReturns.CallersSeeFifo | core/common/include/softbus_queue.h:144-325 | The main result as callers see it: in every timely run the values dequeues returned are, in order, a prefix of the values whose enqueues returned success, at most mask behind; both sequences, logged from calls and return values alone, are the history of the ring |
| RingQueueReturns.EnqueueStepAnswers | core/common/include/softbus_queue.h:144-205 | Every step of an enqueue keeps the value of its call and goes on, or publishes exactly that value and returns success, or returns QUEUE_FULL from its room test; a failed compare-and-swap is none of the last two |
| RingQueueReturns.DequeueStepAnswers | core/common/include/softbus_queue.h:261-325 | Every step of a dequeue goes on, or returns exactly the value it removes, or returns QUEUE_EMPTY from its count test |
| RingQueueReturns.CallAnswers | core/common/include/softbus_queue.h:144-156 | An enqueue of NULL is refused at once; any other call starts with the value it was given and changes nothing shared |
| RingQueueReturns.FailedSwapRetries | core/common/include/softbus_queue.h:157-184 | A compare-and-swap fails only if another claim came in between, and the thread then reads the latest head again |
| RingQueueReturns.FailedClaimRetries | core/common/include/softbus_queue.h:274-303 | The same for a dequeue |
| RingQueueSole.SoleCallersSeeFifo | core/common/include/softbus_queue.h:74-325 | The result as callers see it, when a side is left to one thread |
| RingQueueSole.OpAgrees | core/common/include/softbus_queue.h:95-325 | A step of either kind of operation adds to the callers' log exactly what it adds to the history |
| RingQueueSole.SoleFirstInFirstOut | core/common/include/softbus_queue.h:74-325 | The same main result when the producer side, the consumer side or both are left to one thread that runs the thread-unsafe operation, while any number of threads run the thread-safe one on a shared side: the same order and the same bounds after every run |
| RingQueueSole.SoleStepSimulates | core/common/include/softbus_queue.h:95-258 | Each step of a thread-unsafe operation does to the ring exactly what the thread-safe one would do at that point, although it writes its head without a compare-and-swap and its tail without waiting |
| RingQueueSole.OpKeeps | core/common/include/softbus_queue.h:95-325 | So every step of either kind keeps the invariant of the ring and, with it, that the sole thread of a side has read the latest head |
| RingQueueSole.SoleProducerTicket | core/common/include/softbus_queue.h:95-141 | The sole producer holds the only outstanding producer ticket, or there is none |
| RingQueueSole.SoleConsumerTicket | core/common/include/softbus_queue.h:208-258 | The same for the sole consumer |
| RingQueueSole.SoleFullExact | core/common/include/softbus_queue.h:107-123 | While consumers work, the sole producer is told QUEUE_FULL exactly when mask values are published and not returned, without a bound on what happened since its first read |
| RingQueueSole.SoleEmptyExact | core/common/include/softbus_queue.h:220-240 | While producers work, the sole consumer is told QUEUE_EMPTY exactly when every published value has been returned |
| RingQueueSole.SoleReturnsOldest | core/common/include/softbus_queue.h:242-257 | What the sole consumer returns is the oldest published value that was not returned before |
| RingQueueSole.FirstRead | core/common/include/softbus_queue.h:84-86 | A query first reads the producer tail as it stands, with the number of values published by then, and changes nothing |
| RingQueueSole.AnswerMeans | core/common/include/softbus_queue.h:84-91 | What QueueIsEmpty and QueueCountGet mean during a run: the count is values published at the first read less values returned at the second, modulo the size; it is the exact difference if no dequeue overtook the first read, which holds always for the sole consumer, and empty is said exactly when it is zero |
| RingQueueSole.NotEmptyDequeues | core/connection/ble/src/softbus_ble_connection.c:336-347 | If QueueIsEmpty said not empty to the sole consumer, its next dequeue claims a value, whatever the producers do in between |
| RingQueueProofs.InitialInvariant | core/common/queue/softbus_queue.c:30-53 | A freshly initialised queue with idle threads and arbitrary slot contents satisfies the invariant |
| Word32.PowerOfTwoTestExact | core/common/queue/softbus_queue.c:25-25 | The IS_POWER_OF_2 macro, with its wrap-around, accepts exactly the powers of two and zero |
| RingQueueSequential.LockFreeQueue.QueueInit | core/common/queue/softbus_queue.c:30-53 | Refuses exactly the sizes that are neither zero nor a power of two and then changes nothing; every accepted positive size gives an empty queue |
| RingQueueSequential.LockFreeQueue.QueueCountGet | core/common/queue/softbus_queue.c:71-86 | With no operation in progress, the masked difference of the wrapped tails is the number of stored values |
| RingQueueSequential.LockFreeQueue.QueueSingleProducerEnqueue | core/common/include/softbus_queue.h:95-141 | Appends to the sequence of unread values; NULL is refused; full exactly when size - 1 values are stored, also after the counters wrap |
| RingQueueSequential.LockFreeQueue.QueueSingleConsumerDequeue | core/common/include/softbus_queue.h:208-258 | Removes and returns the oldest unread value; QUEUE_EMPTY exactly when there is none, with nothing changed |
| RingQueueSequential.LockFreeQueue.QueueIsEmpty | core/common/include/softbus_queue.h:74-92 | Answers 0 exactly for the empty sequence |
| RingQueueSequential.EnqueueWindow | core/common/include/softbus_queue.h:126-138 | Writing the slot chosen by the low bits of the wrapped tail appends to the unread window and disturbs no other value in it |
| RingQueueSequential.DequeueWindow | core/common/include/softbus_queue.h:244-256 | Advancing the wrapped consumer tail drops exactly the oldest value of the window |
| BleTransProofs.EveryMessageRebuilt | core/connection/ble/src/softbus_ble_trans_manager.c:48-182 | Main result for BLE. On a new connection, for every schedule in which messages are opened with distinct sequence numbers, at most three multi-fragment ones are unfinished at a time and each fragment arrives once, in any order and interleaving, the receiver hands up exactly the original bytes at the last missing fragment of each message and nothing at any other fragment |
| BleTransProofs.HandsUpWhatIsDue | core/connection/ble/src/softbus_ble_trans_manager.c:48-182 | The same from every state of a connection that agrees with its unfinished messages |
| BleTransProofs.FramesTile | core/connection/ble/src/softbus_ble_trans_manager.c:147-182 | The fragments of a message, joined, are the message; each is non-empty, fits the limit and carries the total length and sequence number |
| BleTransProofs.FramesAreStarts | core/connection/ble/src/softbus_ble_trans_manager.c:147-182 | A packet belongs to a message exactly when its offset is one of the cutting points and it is the fragment cut there |
| BleTransProofs.EventKeeps | core/connection/ble/src/softbus_ble_trans_manager.c:48-128 | One arriving fragment or newly opened message keeps the agreement between the three slots and the unfinished messages, and what is handed up is what is due |
| BleTransProofs.ArriveKeeps | core/connection/ble/src/softbus_ble_trans_manager.c:70-114 | The same for a fragment of a longer message: it lands in the slot of its sequence number, or claims a free one |
| BleTransProofs.ArriveWhole | core/connection/ble/src/softbus_ble_trans_manager.c:64-69 | A message that fits one fragment is handed up at once and uses no slot |
| BleTransProofs.StoreHolds | core/connection/ble/src/softbus_ble_trans_manager.c:98-114 | Storing a missing fragment keeps the slot's bytes and currentSize in step with the set of fragments received; the message comes out exactly when the set is complete |
| BleTransProofs.ReceivedBound | core/connection/ble/src/softbus_ble_trans_manager.c:104-110 | The bytes counted in currentSize reach the total exactly when every fragment has arrived |
| BleTransProofs.CompleteIsData | core/connection/ble/src/softbus_ble_trans_manager.c:98-110 | A buffer that holds every fragment at its offset holds the original bytes |
| BleTransProofs.FreeSlotExists | core/connection/ble/src/softbus_ble_trans_manager.c:70-97 | While fewer than three messages are unfinished there is a free slot |
| BleTransProofs.FourthIsDropped | core/connection/ble/src/softbus_ble_trans_manager.c:81-84 | With three slots taken by other messages every fragment of a fourth is dropped and no slot changes |
| BleTransProofs.TooLongIsRejected | core/connection/ble/src/softbus_ble_trans_manager.c:33-46 | Every fragment of a message longer than 4096 bytes is refused and no slot changes |
| BleTransProofs.NewConnection | core/connection/ble/src/softbus_ble_trans_manager.c:116-128 | A connection without used slots satisfies the invariant, whatever the old buffers hold |
| BleTrans.HeaderRoundTrip | core/connection/ble/src/softbus_ble_trans_manager.c:33-46 | Decoding the sixteen header bytes of a packet gives back its four 32-bit fields, and the payload is what follows |
| BleTrans.Int32Bytes | core/connection/ble/src/softbus_ble_trans_manager.c:33-40 | A header field is four bytes, most significant first, negative numbers in two's complement |
| BleTrans.AcceptedExact | core/connection/ble/src/softbus_ble_trans_manager.c:33-46 | A header passes exactly if its size is the payload's, its offset is not negative, its total is at most 4096 and not below size plus offset, where a sum of 2^31 or more is compared after wrapping |
| BleTrans.OnlyItsSlot | core/connection/ble/src/softbus_ble_trans_manager.c:48-114 | No packet, well-formed or not, changes a slot that belongs to another message; what is handed up is the packet's payload or the start of its own slot's buffer |
| BleTrans.MisfitReleases | core/connection/ble/src/softbus_ble_trans_manager.c:98-103 | A packet whose header passes but whose bytes do not fit the buffer is not handed up and releases the slot of its message |
| BleTrans.BleTransSend | core/connection/ble/src/softbus_ble_trans_manager.c:147-182 | For every behaviour of the radio the packets sent are a prefix of the fragment sequence; all of it on success; on failure the code of the first failed send is returned and nothing more is sent |
| BleTrans.SentFrames | core/connection/ble/src/softbus_ble_trans_manager.c:153-181 | What the sending loop has produced after any number of rounds is a prefix of the fragments, and all of them when the offset reaches the length |
| BleTrans.BuildPacket | core/connection/ble/src/softbus_ble_trans_manager.c:154-170 | One round cuts the fragment at the current offset, the last one shorter |
| BleTrans.BleConnection.FindSlot | core/connection/ble/src/softbus_ble_trans_manager.c:70-84 | Finds the first used slot with the sequence number, and otherwise the lowest free slot or none |
| BleTrans.BleConnection.BleTransRecv | core/connection/ble/src/softbus_ble_trans_manager.c:48-114 | The slot array and the answer are those of the receiving function, for accepted, refused, single, stored and completing packets |
| BleTrans.BleConnection.StoreFragment | core/connection/ble/src/softbus_ble_trans_manager.c:98-114 | Copies the payload at its offset into the slot and adds its size; gives the message up at the total |
| BleTrans.BleConnection.BleTransCacheFree | core/connection/ble/src/softbus_ble_trans_manager.c:116-128 | Releases exactly the given slot |
| BleTrans.ReceiveKeepsSlotsOk | core/connection/ble/src/softbus_ble_trans_manager.c:48-114 | No packet, well-formed or not, breaks the slot array, and a slot index that is returned is in range |
| BleTrans.HandedUpIsReleased | core/connection/ble/src/softbus_ble_connection.c:1221-1232 | A message is handed up exactly when one was received, unchanged, and its slot is then unused and without a buffer |
| BleTrans.BleConnection.BleRequestWriteCallback | core/connection/ble/src/softbus_ble_connection.c:1221-1232 | Receives, hands the message up and frees the slot a completed message was in |
| Database.NeverASpareBit | components/nstackx/nstackx_ctrl/core/nstackx_database.c:133-192 | After every trace of allocations and frees from DatabaseInit, allocation succeeds exactly when fewer than recNumber records are used and then returns the lowest unused record below recNumber, never one of the extra bits of the bitmap; the set bits are those of the same trace on a plain set |
| Database.BitmapIsSet | components/nstackx/nstackx_ctrl/core/nstackx_database.c:133-192 | After every trace the set bits are what the same trace does to a plain set of at most maxCount numbers |
| Database.AllocExact | components/nstackx/nstackx_ctrl/core/nstackx_database.c:133-167 | Allocation fails exactly when the used set has maxCount members; otherwise it adds the least unused number to the set and nothing else |
| Database.FreeExact | components/nstackx/nstackx_ctrl/core/nstackx_database.c:169-192 | Freeing removes exactly that number; unknown, unused or out-of-range numbers change nothing |
| Database.TraceKeeps | components/nstackx/nstackx_ctrl/core/nstackx_database.c:133-192 | Every trace keeps useCount equal to the number of set bits and all set bits below maxCount |
| Database.InitOk | components/nstackx/nstackx_ctrl/core/nstackx_database.c:219-237 | The initial bitmap has no used record and meets the invariant |
| Database.WalkIsAscending | components/nstackx/nstackx_ctrl/core/nstackx_database.c:108-131 | Following DatabaseGetNextRecord from any index lists exactly the used records above it in increasing order; from -1, all of them |
| Database.AscendingMembers | components/nstackx/nstackx_ctrl/core/nstackx_database.c:108-131 | That list holds exactly the used numbers in the range and is strictly increasing |
| RecordDb.DatabaseInit | components/nstackx/nstackx_ctrl/core/nstackx_database.c:205-241 | Refuses zero records, otherwise gives an empty database of that capacity |
| RecordDb.RecordDb.constructor | components/nstackx/nstackx_ctrl/core/nstackx_database.c:219-237 | A bitmap of recNumber / 32 + 1 rows represents the empty set |
| RecordDb.RecordDb.IsRecordOccupied | components/nstackx/nstackx_ctrl/core/nstackx_database.c:48-65 | Row and offset of a record number, and whether its bit is set |
| RecordDb.RecordDb.FindClear | components/nstackx/nstackx_ctrl/core/nstackx_database.c:148-166 | The nested scan that skips full rows finds the lowest clear bit of the whole bitmap |
| RecordDb.RecordDb.DatabaseAllocRecord | components/nstackx/nstackx_ctrl/core/nstackx_database.c:133-167 | The object's new state is the specified one: least free number taken, that record zeroed, all others kept; NULL exactly when maxCount records are used |
| RecordDb.RecordDb.DatabaseFreeRecord | components/nstackx/nstackx_ctrl/core/nstackx_database.c:169-192 | The object's used set loses exactly the given record |
| RecordDb.RecordDb.DatabaseSearchRecord | components/nstackx/nstackx_ctrl/core/nstackx_database.c:72-97 | The scan of all bits with empty rows skipped returns the same record as a scan of 0..maxCount: the first used match, or none |
| RecordDb.RecordDb.DatabaseGetNextRecord | components/nstackx/nstackx_ctrl/core/nstackx_database.c:108-131 | Returns the first used record above the index and moves the index to it; negative and too large indexes as in the code |
| RecordDb.SearchBeyond | components/nstackx/nstackx_ctrl/core/nstackx_database.c:72-97 | Searching past maxCount changes nothing, because no bit is set there |
| DeviceRegistry.OneRecordPerDevice | components/nstackx/nstackx_ctrl/core/nstackx_device.c:92-373 | After every run of reports, clears and backups from the two empty tables, both tables hold at most one record per deviceId, and only of devices that were reported |
| DeviceRegistry.RunTo | components/nstackx/nstackx_ctrl/core/nstackx_device.c:92-373 | Every step of such a run is defined and keeps both tables well-formed and free of duplicates |
| DeviceRegistry.UpdateExact | components/nstackx/nstackx_ctrl/core/nstackx_device.c:345-373 | A report is refused for lack of memory exactly when the device is unknown and the table is full, and then changes nothing; otherwise the device is found afterwards, and no record of another device changes |
| DeviceRegistry.UpdateCodes | components/nstackx/nstackx_ctrl/core/nstackx_device.c:345-373 | Every report gets one of three codes: success exactly if the device is unknown and a record is free, or known with the same type and at most two capability words; failure exactly if known and one of the two fails; otherwise no memory |
| DeviceRegistry.RefusedIsHalfWritten | components/nstackx/nstackx_ctrl/core/nstackx_device.c:237-343 | What a refused merge leaves: nothing written for another device type; for too many capability words the name, a given version and the count written and the words zeroed, all other fields and records unchanged |
| DeviceRegistry.FindExact | components/nstackx/nstackx_ctrl/core/nstackx_device.c:584-592 | A record is found exactly when some used record has the identifier, and it has it |
| DeviceRegistry.ReportPersists | components/nstackx/nstackx_ctrl/core/nstackx_device.c:92-373 | In every run, what was last reported and accepted about a device is what a reader finds under its identifier until the table is cleared, whatever is reported of others and however often backups are taken |
| DeviceRegistry.BackupRemembers | components/nstackx/nstackx_ctrl/core/nstackx_device.c:1168-1200 | In every run, the backup lists what the main table listed when it was last taken, until it is cleared or taken again |
| DeviceRegistry.ClearExact | components/nstackx/nstackx_ctrl/core/nstackx_device.c:92-112 | Clearing a table empties it and leaves the other alone |
| DeviceRegistry.MergeTwice | components/nstackx/nstackx_ctrl/core/nstackx_device.c:237-343 | A merge keeps the deviceId, is refused exactly for another device type or too many capabilities, and repeating an accepted report changes nothing and announces nothing |
| DeviceRegistry.MergeExact | components/nstackx/nstackx_ctrl/core/nstackx_device.c:237-343 | An accepted merge leaves exactly what the report told (an empty version does not replace a known one), and zeros in the capability words beyond the reported ones, and counts as an update exactly when a reader sees a difference |
| DeviceRegistry.ReportIsStored | components/nstackx/nstackx_ctrl/core/nstackx_device.c:345-373 | A report that can be accepted, of a new or a known device, is what a reader then finds under its deviceId |
| DeviceRegistry.BackupExact | components/nstackx/nstackx_ctrl/core/nstackx_device.c:1168-1200 | There is always room in the backup, and it ends with exactly the main table's records in the same order |
| DeviceRegistry.ClearDevices | components/nstackx/nstackx_ctrl/core/nstackx_device.c:92-112 | Freeing while iterating empties the table, and the answer says whether there was anything to free |
| DeviceRegistry.GetDeviceInfoById | components/nstackx/nstackx_ctrl/core/nstackx_device.c:584-592 | Finds the lowest used record with that deviceId; an identifier too long for the field finds nothing |
| DeviceRegistry.CreateNewDevice | components/nstackx/nstackx_ctrl/core/nstackx_device.c:221-235 | Puts the report in the lowest free record, or fails on a full table |
| DeviceRegistry.UpdateIn | components/nstackx/nstackx_ctrl/core/nstackx_device.c:345-373 | The table and the return code are those of the update function |
| DeviceRegistry.CopyNext | components/nstackx/nstackx_ctrl/core/nstackx_device.c:1184-1197 | One round either finds no further main record, or copies the next one to the next place of the backup; allocation in the backup never fails there |
| DeviceRegistry.CopyLoop | components/nstackx/nstackx_ctrl/core/nstackx_device.c:1183-1199 | Alternating next-record on one table with allocate on the other never runs out and stops only when the main table is exhausted or the limit is reached, with the records so far in order and the rest of the backup untouched |
| DeviceRegistry.CopyDevices | components/nstackx/nstackx_ctrl/core/nstackx_device.c:1183-1199 | The backup then holds the main records, packed to the front over its old records |
| DeviceRegistry.Registry.UpdateDeviceDb | components/nstackx/nstackx_ctrl/core/nstackx_device.c:345-373 | Changes the main table as specified and leaves the backup alone |
| DeviceRegistry.Registry.BackupDeviceDB | components/nstackx/nstackx_ctrl/core/nstackx_device.c:1168-1200 | Always succeeds and makes exactly the specified backup step: the main table is unchanged and the backup lists the same devices in the same order, whatever it held before |
| DeviceRegistry.Registry.constructor | components/nstackx/nstackx_ctrl/core/nstackx_device.c:1116-1136 | Both tables start empty and separate |
| CommonList.ListNode.constructor | core/common/include/common_list.h:33-37 | A new node is a ring of its own |
| CommonList.ListAdd | core/common/include/common_list.h:46-52 | Relinking four pointers inserts the node after the given one in the ring's sequence |
| CommonList.ListTailInsert | core/common/include/common_list.h:55-58 | Inserts before the given node, which for the head is the end of the list |
| CommonList.ListDelete | core/common/include/common_list.h:67-75 | Removes the node from the ring's sequence and leaves it a ring of its own |
| CommonList.EmptyMeansAlone | core/common/include/common_list.h:77-80 | A head is empty exactly when the ring has no other node |
| CommonList.DeleteMatching | core/common/include/common_list.h:133-135 | Deleting matched nodes during the safe traversal visits every original entry once, in order, and leaves the ring of exactly the unmatched ones in order |
| CommonList.KeepIsFilter | core/common/include/common_list.h:133-135 | The entries that remain are the filtered sequence of entries |
| Looper.RunKeeps | core/common/message_handler/message_handler.c:91-340 | After every run from a looper whose thread has not started yet, through starts, posts, removals, rounds, stops and drains: pending messages are sorted by time and post order, msgSize is their number until the looper is destroyed, and every posted message is in exactly one of pending, current and freed |
| Looper.DispatchInOrder | core/common/message_handler/message_handler.c:134-143 | A dispatched message is due and no pending message precedes it in time or, at equal times, in post order |
| Looper.DueIsDispatched | core/common/message_handler/message_handler.c:110-179 | Progress: on a running looper a due message at place i of the list is the one handled in round i + 1, after exactly the i messages in front of it |
| Looper.HandledInTurn | core/common/message_handler/message_handler.c:91-290 | No starvation, in every run that neither removes it nor drains the looper, whatever is posted meanwhile: a message at place i is pending only while the number of messages handled so far plus its place is at most i plus the number of earlier messages posted since, and otherwise was the one taken in some round before which no more than that many were handled |
| Looper.DueRoundTakes | core/common/message_handler/message_handler.c:110-143 | A round at a time when some pending message is due takes one |
| Looper.StartedTakes | core/common/message_handler/message_handler.c:102-143 | Before its thread reaches the loop a looper takes nothing; from then on it takes what is due |
| Looper.OneAtATime | core/common/message_handler/message_handler.c:110-165 | A message is taken only by a running loop without a message in hand and without the stop flag, and it is the first of the list |
| Looper.StopEnds | core/common/message_handler/message_handler.c:433-478 | From every reachable state: set the stop flag, let the handler finish, and the loop ends, the list is drained and the looper is released |
| Looper.PostExact | core/common/message_handler/message_handler.c:237-290 | A message with a handler posted before the stop becomes pending, next to all earlier ones; any other is freed and the list is untouched |
| Looper.RemoveExact | core/common/message_handler/message_handler.c:321-338 | A removal on a running looper takes exactly the matching messages off the list and frees them; otherwise it does nothing |
| Looper.DestroyFreesAll | core/common/message_handler/message_handler.c:433-478 | After the drain nothing is pending and every message ever posted has been freed exactly once, also when the thread never reached its loop |
| Looper.StepKeeps | core/common/message_handler/message_handler.c:91-340 | Each critical section keeps order, size and ownership |
| Looper.InsertSorted | core/common/message_handler/message_handler.c:269-284 | Insertion keeps the list sorted, a newcomer going behind its equals |
| Looper.PostKeeps | core/common/message_handler/message_handler.c:237-290 | A post either queues the message or frees it, never both, for a missing handler and a stopped looper too |
| Looper.RemoveKeeps | core/common/message_handler/message_handler.c:313-340 | A removal frees exactly what it takes off the list and keeps the rest in order |
| Looper.TakeKeeps | core/common/message_handler/message_handler.c:134-143 | Taking the first due message moves it from pending to current |
| Looper.FinishKeeps | core/common/message_handler/message_handler.c:165-178 | After the handler the current message is freed once |
| Looper.DrainKeeps | core/common/message_handler/message_handler.c:459-467 | The drain moves every pending message to freed |
| MessageLooper.InsertAtFirstLater | core/common/message_handler/message_handler.c:269-284 | Inserting before the first later message is the ordered insertion |
| MessageLooper.InsertMessage | core/common/message_handler/message_handler.c:269-284 | On the linked list: walk to the first later node, link before it; the entries are those of the ordered insertion |
| MessageLooper.FindPlace | core/common/message_handler/message_handler.c:269-280 | The walk stops at the first node that is later, or at the head |
| MessageLooper.DeleteFirst | core/common/message_handler/message_handler.c:139-143 | Unlinks the first node and keeps the rest |
| MessageLooper.DeleteAll | core/common/message_handler/message_handler.c:325-338 | The removing traversal leaves the unmatched messages in order and yields the matched ones in order |
| MessageLooper.MessageLooper.PostMessageAtTime | core/common/message_handler/message_handler.c:237-290 | The object's state becomes the post step of the old one |
| MessageLooper.MessageLooper.LoopRemoveMessageCustom | core/common/message_handler/message_handler.c:313-340 | The object's state becomes the removal step of the old one |
| MessageLooper.MessageLooper.TakeNext | core/common/message_handler/message_handler.c:116-165 | The object's state becomes the take step of the old one, and the message to run is the current one |
| MessageLooper.MessageLooper.FinishCurrent | core/common/message_handler/message_handler.c:165-178 | The object's state becomes the finish step of the old one |
| MessageLooper.MessageLooper.ReleaseMessages | core/common/message_handler/message_handler.c:459-467 | The object's state becomes the drain step of the old one |
| MessageLooper.MessageLooper.constructor | core/common/message_handler/message_handler.c:347-387 | A new looper, whose thread has not run, is the start of the runs above |
| MessageLooper.MessageLooper.EnterLoop | core/common/message_handler/message_handler.c:102-108 | The object's state becomes the start step of the old one |
| MessageLooper.DeleteEvery | core/common/message_handler/message_handler.c:459-467 | The draining traversal takes every message and leaves an empty list |
| SessionKeys.NewestKeys | core/authentication/src/auth_sessionkey.c:36-85 | After every trace of insertions, clears by number and clears of all, the store is a prefix of the not-cleared insertions, newest first, and has at most 20 entries |
| SessionKeys.TwentyNewest | core/authentication/src/auth_sessionkey.c:36-85 | While nothing is cleared it is exactly the 20 newest |
| SessionKeys.LookupIsNewest | core/authentication/src/auth_sessionkey.c:125-148 | What AuthGetLastSessionKey finds is the newest not-cleared insertion for that type and device |
| SessionKeys.DeviceLookupExact | core/authentication/src/auth_sessionkey.c:125-148 | The answer is the newest entry of the same type whose device key agrees with the one asked for in its first deviceKeyLen bytes, up to a zero byte; no answer exactly if there is none |
| SessionKeys.SeqLookupExact | core/authentication/src/auth_sessionkey.c:150-174 | The same for the lookup by number, whose answer also has the number |
| SessionKeys.StrnEqExact | core/authentication/src/auth_sessionkey.c:140-141 | The recursive comparison is agreement at every index before which there is no zero byte |
| SessionKeys.ClearExact | core/authentication/src/auth_sessionkey.c:325-343 | After clearing a number exactly the entries with other numbers are left, in their order |
| SessionKeys.SetExact | core/authentication/src/auth_sessionkey.c:36-85 | Setting a key moves nothing else; a full list loses its oldest entry, also when the new key does not fit its fields |
| SessionKeys.StoredKeyAnswers | core/authentication/src/auth_sessionkey.c:36-174 | A key that fits its fields is found at once, by device and by number, with the key bytes, side, number, peer and zero-padded device key it was stored with |
| SessionKeys.Survives | core/authentication/src/auth_sessionkey.c:36-85 | A key at position i stays, unchanged, through every trace that does not clear its number and makes fewer than 20 - i insertion attempts |
| SessionKeys.AnswerSurvives | core/authentication/src/auth_sessionkey.c:150-174 | Through any operations, clears included, that do not insert for the same type, device and number, the entries that answer a lookup remain a prefix of what they were: the newest keeps answering until it is evicted or cleared, and no other entry answers in its place |
| SessionKeys.AnswersKept | core/authentication/src/auth_sessionkey.c:36-174 | The same for one operation, also when several entries answer |
| SessionKeys.KeyStore.AuthSetLocalSessionKey | core/authentication/src/auth_sessionkey.c:36-85 | Evicts the oldest of 20, then puts the key in front if its identifiers fit; the eviction happens even when they do not fit |
| SessionKeys.KeyStore.AuthGetLastSessionKey | core/authentication/src/auth_sessionkey.c:125-148 | The first entry for the type and device, or none exactly when there is none |
| SessionKeys.KeyStore.GetSessionKeyByDevinfo | core/authentication/src/auth_sessionkey.c:150-174 | The first entry for type, device and number, or none exactly when there is none |
| SessionKeys.KeyStore.AuthIsSeqInKeyList | core/authentication/src/auth_sessionkey.c:108-123 | True exactly when some entry has the number |
| SessionKeys.KeyStore.AuthClearSessionKeyBySeq | core/authentication/src/auth_sessionkey.c:325-343 | Deleting during traversal removes exactly the entries with the number and keeps the order of the rest |
| SessionKeys.SplitFilter | core/authentication/src/auth_sessionkey.c:334-342 | One round of that traversal, deleting or stepping on, leads to the same filtered list |
| AuthCrypto.FrameRoundTrip | core/authentication/src/auth_sessionkey.c:232-318 | Main result for frames: a frame is 32 bytes longer than its data and is decrypted to the same bytes with any later store that still finds the encrypting key under the frame's number |
| AuthCrypto.FrameSurvives | core/authentication/src/auth_sessionkey.c:232-318 | Whatever insertions with other numbers and whatever clears follow, the frame decrypts to its data exactly while the encrypting key is in the store, and gives an encryption error once it is evicted or cleared |
| AuthCrypto.LostKey | core/authentication/src/auth_sessionkey.c:150-174 | Once no entry has the frame's number, decryption is refused |
| AuthCrypto.EncryptExact | core/authentication/src/auth_sessionkey.c:232-274 | A buffer without 32 extra bytes is the one invalid parameter; encryption succeeds exactly when the buffer holds 32 extra bytes, the device has a key, the data is not empty, the cipher accepts the key and the packet length is still positive as an int32_t; the side flag is that of the newest key |
| AuthCrypto.FrameBytes | core/authentication/src/auth_sessionkey.c:232-274 | Every byte of a frame: the number of the device's newest key; a vector of that number and the eight last random bytes; the cipher text of the data under that key and vector; its tag |
| AuthCrypto.DecryptExact | core/authentication/src/auth_sessionkey.c:276-318 | What decryption asks the cipher: the key named by the first four bytes, the next twelve as vector, the last sixteen as tag and what lies between as cipher text; when it answers with the plain text and when with which error |
| AuthCrypto.SeqBytesAre | core/authentication/src/auth_sessionkey.c:256-260 | The four number bytes, least significant first, in two's complement |
| AuthCrypto.DeviceThenSeq | core/authentication/src/auth_sessionkey.c:125-174 | Looking up a device and then that key's number finds the same entry |
| AuthCrypto.SeqRoundTrip | core/authentication/src/auth_sessionkey.c:256-260 | The four number bytes in front of a frame give the number back, negative ones included |
| AuthCrypto.OpenSealed | adapter/common/mbedtls/softbus_adapter_crypto.c:36-108 | Initialisation vector, ciphertext and tag laid out by the encryptor are taken apart by the decryptor into the plaintext, exactly while the plaintext length is an int32_t, for every cipher with the laws of section 7 of NIST SP 800-38D |
| AuthCrypto.OnlySealedOpens | adapter/common/mbedtls/softbus_adapter_crypto.c:78-108 | Whatever decrypts is exactly the packet the encryptor would have built from the result |
| AuthCrypto.SomeCipherIsLawful | adapter/common/mbedtls/softbus_adapter_crypto.c:36-108 | The laws asked of the cipher can be met |
| AuthBuffers.MbedAesGcmEncrypt | adapter/common/mbedtls/softbus_adapter_crypto.c:36-76 | Writes vector, ciphertext and tag at the given place of the buffer and nothing else; the result is the packet length as an int32_t, negative from 2^31 bytes on; refuses without writing |
| AuthBuffers.WritePacket | adapter/common/mbedtls/softbus_adapter_crypto.c:56-72 | Three copies in the code's order leave the three parts side by side and all other bytes unchanged |
| AuthBuffers.SoftBusEncryptDataWithSeq | adapter/common/mbedtls/softbus_adapter_crypto.c:194-214 | Puts random bytes and the number in the vector and writes the sealed packet, or reports the failure |
| AuthBuffers.AuthEncryptInto | core/authentication/src/auth_sessionkey.c:232-274 | The return code, side flag, length and bytes in the caller's buffer are those of the frame function, in all error cases too |
| AuthBuffers.AuthDecryptInto | core/authentication/src/auth_sessionkey.c:276-318 | The return code, length and bytes in the caller's buffer are those of the decrypting function, in all error cases too, among them a length that is negative as an int32_t |
| AuthOrder.BadLengthIgnored | core/authentication/src/auth_manager.c:559-562 | Empty data and data of more than 64 KiB are ignored, all other data is taken note of |
| AuthSteps.RightExactlyUnlessOvertaken | core/authentication/src/auth_manager.c:491-599 | Main result for the session. In every interleaving of the single tests and writes of the key handler, the peer handler and the post, client or server, TCP or not, once all have ended: the owner was told of the key once, posted, and then got the peer's data once and unchanged, if and only if no handler overtook another in one of four ways |
| AuthSteps.PrefixUnlessEarly | core/authentication/src/auth_manager.c:491-599 | At every moment of every interleaving in which data was not handed over early, what the owner went through is a prefix of that, in that order; the one exception is a peer handler that lost its block to the post and reported a failure, after the key and the post |
| AuthSteps.PoliteEndsRight | core/authentication/src/auth_manager.c:491-599 | In particular every interleaving ends right in which no step falls between the other handler's test of the key state and its write, between storing the key and setting the status, or between the decision to save and the end of the saving |
| AuthSteps.PoliteNeverOvertakes | core/authentication/src/auth_manager.c:491-599 | Such a run contains none of the four overtakings |
| AuthSteps.DeliveryCanBeLost | core/authentication/src/auth_manager.c:570-592 | First overtaking: for every kind of session there is a run in which the peer handler decides to save, the post finds nothing saved, and the data then stays with the session for good |
| AuthSteps.NoticeCanBeMissed | core/authentication/src/auth_manager.c:501-568 | Second overtaking: on a server over TCP there is a run in which each handler tests the key state before the other writes it, and the owner is never told |
| AuthSteps.DeliveryCanBeEarly | core/authentication/src/auth_manager.c:498-593 | Third overtaking: for every kind of session there is a run in which the peer handler looks between storing the key and setting the status, and the data comes before the key-generated callback |
| AuthSteps.DeliveryCanBeTorn | core/authentication/src/auth_manager.c:578-590 | Fourth overtaking: for every kind of session and all data there are runs in which the post falls between the allocation of the block and the writing of its length; the data is then gone and never handed over, and if the block was not filled yet the peer handler reports a failure to the owner |
| AuthSteps.FillsItsBlockUnlessTorn | core/authentication/src/auth_manager.c:578-588 | When the peer handler fills the block, the block is still the session's and no post has released it, unless that overtaking has occurred |
| AuthSteps.MoveKeeps | core/authentication/src/auth_manager.c:491-599 | Every single step keeps the invariant that ties status, sync state, saved data and callbacks to the handlers' positions and to the overtakings so far |
| AuthSteps.KeyControl | core/authentication/src/auth_manager.c:491-513 | The same for the fields the key handler tests and writes |
| AuthSteps.PeerAnnounces | core/authentication/src/auth_manager.c:564-568 | The same for the peer handler up to its mark |
| AuthSteps.PeerDecides | core/authentication/src/auth_manager.c:570-571 | The same for the peer handler's look-up and its test of the status |
| AuthSteps.PeerSaving | core/authentication/src/auth_manager.c:578-590 | The same for the steps of saving: allocation, copy, length and the failure report |
| AuthSteps.PeerHandsOver | core/authentication/src/auth_manager.c:593-598 | The same for handing the data over |
| AuthSteps.PostNeverKeepsItsOwn | core/authentication/src/auth_manager.c:570-592 | While the key stays listed, the handler called by a post never reaches its saving branch, where it would copy from the block it was called with, and the data it was called with are the peer's, complete |
| AuthStore.PeerAlone | core/authentication/src/auth_manager.c:557-599 | Left alone, the steps of the peer handler make exactly the transition of the undisturbed handler |
| AuthStore.KeyAlone | core/authentication/src/auth_manager.c:498-513 | The same for the key handler after storing the key |
| AuthStore.RightOnSharedStore | core/authentication/src/auth_manager.c:491-599 | The main result with the store itself answering the look-ups while other sessions use it, from conditions that can be counted: no other key with the number, and after its own key no clearing of it and fewer than twenty attempts to set a key |
| AuthStore.StoreAnswers | core/authentication/src/auth_manager.c:570-570 | Under those conditions the store lists the number exactly from the moment its key is stored, throughout the run |
| AuthOrder.OrderDoesNotMatter | core/authentication/src/auth_manager.c:470-599 | When each handler runs undisturbed: after every run, in every order of key, peer data and local post, with other sessions using the store in between, what the owner went through is a function of which events happened: key-generated once, its own post, then the peer's data once and unchanged |
| AuthOrder.OwnerGoesThrough | core/authentication/src/auth_manager.c:470-599 | The same from a new session and the events alone: what the owner went through is decided by whether the key came, which data the peer sent and whether the owner posted, as read off the list of events |
| AuthOrder.EventsDecide | core/authentication/src/auth_manager.c:470-599 | After every run, what has happened to the session and what the shared store holds are functions of the events alone |
| AuthOrder.EventKeeps | core/authentication/src/auth_manager.c:470-599 | Each undisturbed event keeps status, saved data and sync state a function of the events so far |
| AuthOrder.KeyKeeps | core/authentication/src/auth_manager.c:491-513 | The same for the returned session key, taken as one step |
| AuthOrder.PeerKeeps | core/authentication/src/auth_manager.c:557-599 | The same for the peer's data, kept or delivered, taken as one step |
| AuthOrder.AuthSession.AuthOnSessionKeyReturned | core/authentication/src/auth_manager.c:491-513 | The store and the session change as the key event says |
| AuthOrder.AuthSession.AuthHandlePeerSyncDeviceInfo | core/authentication/src/auth_manager.c:557-599 | The session changes as the peer event says |
| AuthOrder.AuthSession.RunOnKeyGenerated | core/authentication/src/auth_manager.c:501-513 | Notifies the owner, who may post its data inside the callback |
| AuthSteps.PostLooks | core/authentication/src/auth_connection.c:99-103 | The post's test of the saved block and its reading of the block and its length, as two steps, keep the invariant, whatever the peer handler has written so far |
| AuthSteps.PostHandsOver | core/authentication/src/auth_connection.c:103-103 | Once the post has read a length that was written, the handler it calls always hands the data over, whatever else interleaves |
| AuthSteps.PostReleases | core/authentication/src/auth_connection.c:104-105 | Releasing the block and clearing the field, as two steps, keep the invariant |
| AuthStore.PostAlone | core/authentication/src/auth_connection.c:97-107 | Left alone, the steps of the post make exactly the transition of the undisturbed post |
| AuthOrder.InitialInvariant | core/authentication/src/auth_connection.c:226-226 | A session in authentication progress whose number no stored key has starts out right |
| AuthOrder.PostKeeps | core/authentication/src/auth_connection.c:97-107 | Posting local data, taken as one step, keeps the session state a function of the events so far |
| AuthOrder.AuthSession.HandlePeerSyncDeviceInfo | core/authentication/src/auth_connection.c:97-107 | Calls the peer handler with saved data, if any, and releases it |
| AuthOrder.ConsistentKept | core/authentication/src/auth_connection.c:97-107 | Saved data has always been announced and length-checked, so the handler called by the post goes straight to keeping or handing over |
| AuthOrder.HandedOverExactlyIfListed | core/authentication/src/auth_connection.c:97-107 | Saved data is released by the post in any case and is delivered exactly when the key list still has the session's number; arriving data is kept exactly when it does not: why the store must not have evicted the key |
| AuthOrder.KeepsItsOwnExactlyIfUnlisted | core/authentication/src/auth_connection.c:97-107 | The handler called by the post takes its saving branch, in which the code copies from the block it has just released, exactly when the key is not listed |
| Congestion.SendRateExact | components/nstackx/nstackx_congestion/core/nstackx_congestion.c:117-141 | Main result for rates: with a transmit rate up to 2503, a valid receive rate, not both below 8, and mtu 65..22369, the divisor is not zero, the stored 16-bit packet rate and the direct-message rate are those of unbounded arithmetic throughout, theta included, with their floors; the direct-message path refuses an invalid transmit rate; and the combined rate before the floor exceeds neither direction's speed * theta / 1000 |
| Congestion.LargestExactTx | components/nstackx/nstackx_congestion/core/nstackx_congestion.c:117-141 | The bound on the transmit rate is sharp: at 2504, which the WLAN path does not refuse, receive rate 2500 and mtu 22369 give 3 packets where 35 are meant |
| Congestion.ThetaIsTrue | components/nstackx/nstackx_congestion/core/nstackx_congestion.c:95-103 | Up to speed 312 and mtu 22369 theta equals the formula in unbounded arithmetic |
| Congestion.ThetaExact | components/nstackx/nstackx_congestion/core/nstackx_congestion.c:95-103 | For every admitted mtu and speed the divisor is exact and not zero, and theta equals the exact quotient if and only if 1000 * mtu * assembled packets stays below 2^32 |
| Congestion.LargestSafeMtu | components/nstackx/nstackx_congestion/core/nstackx_congestion.c:95-103 | That product stays below 2^32 for every speed up to mtu 22369, and no longer at 22370 for the fastest |
| Congestion.AssembleExact | components/nstackx/nstackx_congestion/core/nstackx_congestion.c:69-73 | For every 32-bit speed: eight packets for each whole hundred, and eight below two hundred |
| Congestion.RateCodes | components/nstackx/nstackx_congestion/core/nstackx_congestion.c:117-141 | Which rates are refused, by each of the two functions |
| Congestion.ThetaRange | components/nstackx/nstackx_congestion/core/nstackx_congestion.c:95-103 | Theta is between 1 and 999 up to mtu 22369 |
| Congestion.AssembleBounds | components/nstackx/nstackx_congestion/core/nstackx_congestion.c:69-73 | The number of assembled packets is between 8 and 192 and tracks the speed |
| Congestion.AllSizeIsTrue | components/nstackx/nstackx_congestion/core/nstackx_congestion.c:95-103 | No 32-bit step of the total size wraps |
| Congestion.CombinedWithinBoth | components/nstackx/nstackx_congestion/core/nstackx_congestion.c:125-138 | The divisor is positive, nothing wraps, and the combined rate is at most either direction's effective rate |
| Congestion.PacketRateFits | components/nstackx/nstackx_congestion/core/nstackx_congestion.c:133-135 | Converting to packets per interval neither wraps nor is cut by the 16-bit cast |
| Congestion.ZeroDivisor | components/nstackx/nstackx_congestion/core/nstackx_congestion.c:130-131 | With both rates below 8 the divisor is zero whatever theta is |
| SeqNumbers.WindowDistinct | core/authentication/src/auth_common.c:39-53 | Any 8388607 consecutive results are pairwise distinct, across the counter reset, in full and after truncation to 32 bits |
| SeqNumbers.SeqRepeats | core/authentication/src/auth_common.c:39-53 | Two results agree, in full or truncated, if and only if their positions differ by a multiple of 8388607 |
| SeqNumbers.SeqShape | core/authentication/src/auth_common.c:39-59 | Every result is positive as a signed 64-bit number and even, so the receiver always takes the server side |
| SeqNumbers.SeqValue | core/authentication/src/auth_common.c:39-53 | A result is the identifier shifted by 24 bits plus twice the position in the period plus two |
| SeqNumbers.SeqSource.GetSeq | core/authentication/src/auth_common.c:39-53 | The stateful counter yields the k-th number of the sequence on its k-th call |
| BaseListener.ListsMatchSets | core/connection/common/src/softbus_base_listener.c:146-875 | After every run in which a descriptor is used by one module and is no listening socket, and an info is released only with an empty list, it is on its module's list exactly when it is in the read, write or except set; it is on no other list, and lists have no duplicates |
| BaseListener.EventKeeps | core/connection/common/src/softbus_base_listener.c:146-875 | Each critical section keeps that agreement |
| BaseListener.AddKeeps | core/connection/common/src/softbus_base_listener.c:789-836 | Adding a trigger keeps it, also when the node cannot be allocated and the bits are taken back |
| BaseListener.DelKeeps | core/connection/common/src/softbus_base_listener.c:838-875 | Removing a trigger keeps it: the node goes exactly when the last bit goes |
| BaseListener.AddCodes | core/connection/common/src/softbus_base_listener.c:789-836 | Which of its three codes AddTrigger gives: success exactly for sound parameters, a started module, a count of at most 1024 and a node to be had or already there |
| BaseListener.DelCodes | core/connection/common/src/softbus_base_listener.c:838-875 | Which of its three codes DelTrigger gives: success exactly for sound parameters and a started module, also when the descriptor is not watched |
| BaseListener.AddTakesBack | core/connection/common/src/softbus_base_listener.c:818-822 | When no node can be had, the trigger's interests are taken away from the descriptor, also those it had before, and nothing else changes |
| BaseListener.CountFollowsList | core/connection/common/src/softbus_base_listener.c:789-875 | Neither call changes by how much fdCount differs from the length of the list, nor another module's info |
| BaseListener.ResetWatches | core/connection/common/src/softbus_base_listener.c:146-256 | A reset stops exactly what the module's list names, for all interests, and leaves other modules' infos alone |
| BaseListener.DestroyExact | core/connection/common/src/softbus_base_listener.c:666-685 | An undisturbed destroy forgets the module and what its list named, and nothing else |
| BaseListener.StartWatches | core/connection/common/src/softbus_base_listener.c:511-585 | Starting watches the listening socket for input and nothing else, and changes no list |
| BaseListener.AddWatches | core/connection/common/src/softbus_base_listener.c:687-836 | A successful AddTrigger makes select watch its descriptor for exactly the added interests as well, a failed one for none, and no other descriptor is affected |
| BaseListener.DelWatches | core/connection/common/src/softbus_base_listener.c:718-875 | DelTrigger stops exactly the named interests, and the node stays exactly while one is left |
| BaseListener.ResetKeeps | core/connection/common/src/softbus_base_listener.c:211-256 | Both resets keep it and empty the module's list |
| BaseListener.DestroyKeeps | core/connection/common/src/softbus_base_listener.c:666-685 | Destroying a module with nothing between its two critical sections keeps the agreement and leaves no bit of its descriptors behind |
| BaseListener.ReleaseKeepsExactlyIfEmpty | core/connection/common/src/softbus_base_listener.c:677-683 | The second critical section, which releases the info, keeps the agreement if and only if the module's list is empty at that moment |
| BaseListener.ReleaseKeeps | core/connection/common/src/softbus_base_listener.c:677-683 | So a release in an admitted run keeps it |
| BaseListener.AddDuringDestroy | core/connection/common/src/softbus_base_listener.c:666-685 | In every state with the module present, a trigger added between the reset and the release is accepted, and its descriptor then stays in a set and is on no list |
| BaseListener.SharedDescriptorIsLost | core/connection/common/src/softbus_base_listener.c:146-163 | In any state, resetting one of two modules that list the same descriptor leaves it on the other list and in no set: sharing must be excluded |
| BaseListener.ListeningBitStays | core/connection/common/src/softbus_base_listener.c:165-209 | A listening socket keeps its read bit through a reset and is on no list: it must be excluded too |
| BaseListener.ClearExact | core/connection/common/src/softbus_base_listener.c:146-163 | Clearing a list takes exactly its descriptors out of the sets |
| BaseListener.CheckFdIsExist | core/connection/common/src/softbus_base_listener.c:749-759 | True exactly when the descriptor is on the list |
| BaseListener.Listener.AddTriggerToSet | core/connection/common/src/softbus_base_listener.c:687-716 | Sets exactly the bits of the trigger type |
| BaseListener.Listener.DelTriggerFromSet | core/connection/common/src/softbus_base_listener.c:718-747 | Clears exactly the bits of the trigger type |
| BaseListener.Listener.DelFdNode | core/connection/common/src/softbus_base_listener.c:774-787 | Unlinks the first node of the descriptor and counts down, or changes nothing |
| BaseListener.Listener.AddTrigger | core/connection/common/src/softbus_base_listener.c:789-836 | State and code are the specified ones, for every parameter, module and count error too |
| BaseListener.Listener.DelTrigger | core/connection/common/src/softbus_base_listener.c:838-875 | State and code are the specified ones, for every parameter and module error too |
| BaseListener.Listener.ClearListenerFdList | core/connection/common/src/softbus_base_listener.c:146-163 | Emptying the list from the front clears the bits of all its descriptors and leaves other lists alone |
| BaseListener.Listener.ResetBaseListener | core/connection/common/src/softbus_base_listener.c:211-256 | State is the specified reset |
| BaseListener.Listener.DestroyBaseListener | core/connection/common/src/softbus_base_listener.c:666-685 | State is the specified removal of the module |

## Left out

- Memory model: the ring queue's steps are sequentially consistent and its barriers are no-ops.
- A queue of zero slots: `QueueInit` accepts it, every other queue result needs at least one slot.
- `QueueSizeCalc` and `CreateQueue`, which only compute a size and call `QueueInit`.
- RingQueueProofs.FirstInFirstOut: timely runs only, in which fewer than 2^32 tickets are claimed between a thread's head read and its compare-and-swap; `RingQueueLimits.LateSwapOverruns` shows why.
- RingQueueSequential.LockFreeQueue.QueueCountGet: for a queue with no operation in progress, as are `QueueIsEmpty` and the single-producer and single-consumer calls there; `RingQueueSole` states what they do while other threads work.
- RingQueueSole.SoleFirstInFirstOut: a thread-unsafe operation is used by one thread, and no thread uses the thread-safe one on that side, throughout a run.
- BleTrans.BleTransSend: needs mtu above 19, because below that the sending loop does not advance; a send buffer is a header and its payload rather than one byte array.
- BleTrans.BleConnection.BleTransRecv: needs at least the sixteen header bytes, which the code reads without a length check of its own.
- BLE connection lookup, connection identifiers, reference counts and the send queue thread.
- Allocation, `memcpy_s` and mutex failures, except the failed node allocation of `AddTrigger`.
- RecordDb.RecordDb.IsRecordOccupied: record pointers are record numbers, so the pointer arithmetic of `GetRecord` and `GetRecordIndex` is not modelled; a bitmap row is 32 booleans.
- DeviceRegistry.Registry.UpdateDeviceDb: does not model the change notification to the application, the `update` flag of a record or `GetDeviceList`; the module is initialised.
- The reduced copy of the discovery stack under `components/nstackx_mini`.
- The looper's clock, configuration table and its `g_isNeedDestroy` exit; nothing is claimed of calls on a looper that `DestroyLooper` has released, among them a thread that first runs after that. A message's `id` is an observer's post number, not a field of the code.
- The session key list and the descriptor lists are sequences here; `CommonList` proves that the linked list refines one.
- AuthCrypto.EncryptExact: data shorter than 2^32 - 32 bytes; beyond that `len + 32` in `AuthEncrypt` wraps.
- AuthCrypto.FrameRoundTrip: lengths within 32 of 2^32 are left out, where `len + 32` in `AuthEncrypt` and `len - 32` in `AuthDecrypt` wrap; the host is little-endian; the cipher is any function with the laws stated in `Lawful`.
- `AuthEncryptBySeq`, `AuthIsDeviceVerified`, key agreement and all mbedtls internals.
- AuthOrder.OrderDoesNotMatter: each handler is one event although none is atomic in the code; `KeyKeeps`, `PeerKeeps`, `PostKeeps` and `EventKeeps` share this. What interleaved handlers do is stated in `AuthSteps`.
- AuthSteps.RightExactlyUnlessOvertaken: the right outcome is not promised for runs with one of the four overtakings, and `AuthSteps.DeliveryCanBeLost`, `AuthSteps.NoticeCanBeMissed`, `AuthSteps.DeliveryCanBeEarly` and `AuthSteps.DeliveryCanBeTorn` show that the code allows them. Each handler runs once, an operation on the key list is one step, a block whose length is not written yet has length zero, and single tests and writes are sequentially consistent; a post inside the key-generated callback is one of the interleavings.
- AuthStore.RightOnSharedStore: eviction of the key, clearing it once it is stored and a second session with the same 32-bit number are excluded by what it counts; TCP routing, timeouts and failures that delete the session are not modelled.
- AuthOrder.HandedOverExactlyIfListed: when the key is no longer listed, the code releases the saved block and then copies from it; the model says only that the data is dropped, and `AuthOrder.KeepsItsOwnExactlyIfUnlisted` says when this happens.
- Congestion.SendRateExact: both rates below 8 divide by zero in the code (`Congestion.ZeroDivisor`) and are excluded, as are transmit rates above 2503, where the WLAN path is not exact for every admitted mtu (`Congestion.LargestExactTx`); the P2P formulas are not modelled.
- `fdCount` and `g_maxFd` of the base listener: `fdCount` is carried for the limit check and nothing is claimed of it; `g_maxFd` is not modelled. After a stop and a restart neither follows the list.
- BaseListener.ListsMatchSets: `StartBaseListener` and `StartBaseClient` are events without their status check, socket calls or error paths.
- Sockets, select, GATT, threads, timers, JSON, configuration, logging and inter-process calls.
