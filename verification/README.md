# A verified model of Endfields DB

Endfields DB is an embedded store of fixed 64-byte slots in one mapped region. This project models its core in
Dafny and proves what the parts promise:

- the **Robin Hood index** (`src/ef_index.c`): on every ordered table, insertion, removal and lookup act as a map
  does, with the exact condition under which an insertion fails or drops an entry, and under which a rehash gets
  stuck half way and with how many keys, read off the keys before the call; growth, shrinking and the moving of the
  slot region; an invariant over every run of one handle, and how its entry counter goes wrong;
- the **concurrent protocols** as interleaved steps of any number of threads: the seqlock of index readers and
  writers, the free list with locked pops and unlocked pushes, the message queue with its lazily installed dummy,
  and byte locks emulated by word compare-and-swap;
- the **slot heap**: one link word per slot serves the free list, the queue and the blob chains; every operation
  keeps every slot in exactly one place, and keeps what all other owners stored;
- the **undo log and transactions**: which operations replay inverts exactly, and that abort, and recovery after the
  process dies between two operations, restore the slots;
- the **slicing-by-4 CRC-32**, equal to the bit-at-a-time register, which is the reversed remainder of a long division
  by the polynomial of IEEE 802.3 clause 3.2.9;
- the **link walk** `ef_chase_n`, with its cache of 64 visited offsets.

Code that updates state is written as classes and methods over the same fields, arrays and loops; each is proved
against functions or relations on the old and new state, and the theorems are lemmas about those. Protocols are
state machines whose steps are single loads, stores and compare-and-swaps, sequentially consistent; besides what no
interleaving breaks, runs of one thread alone show that the steps do the work. What functions compute is also stated
without them: outcomes on the state before a call, bytes as they are in the file, numbers.

## Modules

| file | part |
|---|---|
| `Base.dfy` | result codes, machine words, powers of two |
| `Crc32.dfy` | the CRC-32 register, its additivity, the tables, `ef_crc32_update_slice4` |
| `CrcDivision.dfy` | long division of message bits by the polynomial, and the check value |
| `RobinHood.dfy`, `RobinHoodPut.dfy`, `RobinHoodRemove.dfy` | the table as a sequence: order, lookup, displacement chains, backward shift |
| `IndexTable.dfy` | the same algorithms in place on an array of words |
| `FullTables.dfy` | when an insertion into a full table reports success |
| `Rebuild.dfy` | offsets and fix-up, collecting and reinserting entries |
| `Hazards.dfy` | which keys make an insertion lose an entry and a rehash get stuck, from their homes alone |
| `IndexMemory.dfy` | moving the slot region: links, table, renewed checksums |
| `IndexSizing.dfy` | load factor and capacity pickers |
| `Index.dfy` | the index of one handle: `class Handle` |
| `Miscount.dfy` | a run of ordinary calls, all reported as successful, that loses keys |
| `Seqlock.dfy`, `ByteLocks.dfy`, `FreeListSteps.dfy`, `QueueSteps.dfy` | protocols as steps |
| `Slots.dfy`, `Heaps.dfy`, `Contents.dfy`, `Release.dfy`, `Blobs.dfy` | slots and checksums, heap shapes, what slots hold, release of chains, blob layout |
| `Store.dfy` | allocation, growth, queue and blobs of one handle: `class SlotStore` |
| `Undo.dfy`, `FullLog.dfy` | records and replay; what replay restores when the log has filled up |
| `Txn.dfy` | transactions and recovery: `class Db` |
| `Chase.dfy` | `ef_chase_n` |
| `Layout.dfy` | the file as it is laid out: offsets, statuses, lists, blob and log headers, load factors |

## What the code does that a reader may not expect

Each of these but the last, which is about a document, is a theorem below, with its exact condition or a concrete
input.

- With free buckets left, `ef_index_put_entry` returns INDEX_FULL exactly when the key is new, every bucket from its
  home to the end of the table is taken, and the buckets from the start are taken up to one whose entry has not
  wrapped round. The new key is then stored and one older entry is gone (`RobinHoodPut.PutExact`,
  `RobinHoodPut.HazardWitness`).
- On a full table a new key always costs one entry (`RobinHoodPut.PutFull`). The call returns OK all the same exactly
  when the home of the key lies before those of all entries, and no entry has come all the way round
  (`FullTables.SuccessIff`, `RobinHoodPut.FullTableWitness`).
- The load bound does not keep the table from filling up. A shrink that gets stuck behind a removal that reports OK
  leaves the entry counter at a recount of old words (`src/ef_index.c:93-99`). It is then right only if the first
  buckets of the old table happen to count as many as were placed (`Index.CounterAfterShrink`); after growth that
  got stuck it is always too high (`Index.Handle.RehashTo`). Twenty ordinary calls on a new index, each of which
  returns OK, end with sixteen keys in sixteen buckets, a counter of ten, and a key gone that was never removed
  (`Miscount.SilentLoss`). Growth that succeeds, or `ef_index_clear`, puts the counter right again.
- A rehash reinserts the keys in bucket order, and gets stuck half way exactly when some key finds those before it in
  that state: whether it does is read off the homes of the keys (`Hazards.KeyHazard`, `Hazards.Sticks`). Keys are then
  missing. `ef_index_remove` and `ef_index_remove_by_slot` drop the result of the shrink behind them and report OK
  (`Index.Handle.Remove`); three keys in 32 buckets do it (`Index.ShrinkLosesKeys`). Growth can do the same: twelve
  keys put into 16 buckets one by one, and the thirteenth `ef_index_put` loses an older key
  (`Index.GrowthLosesKeys`).
- `ef_index_get` converts the offset that it has read with the base of the moment, after the sequence has been
  checked: the id is that of the map if and only if no rehash has come between (`Seqlock.ReturnedIds`,
  `Seqlock.StaleBaseWitness`).
- A rehash that gets stuck returns before it renews the slot checksums (`src/ef_index.c:896-912`), so links are
  rewritten under checksums of the old ones (`Index.Handle.RehashTo`).
- When the slot region moves down, an offset that lay between the new and the old region starts to name a slot
  (`Rebuild.FixupKeepsNames`, `IndexMemory.StrayWitness`). No link of a sound heap is such an offset
  (`IndexMemory.MovedLinks`).
- `ef_free_slot` frees an overflow slot by itself; the result is never a sound heap
  (`Blobs.FreeingOverflowBreaks`).
- The first push needs two slots, and the one for the dummy is taken without growing the database
  (`Store.SlotStore.QueuePush`).
- A transaction that takes the last free slot cannot be undone: the count stays zero
  (`Undo.LastSlotIsMiscounted`).
- An abort after `ef_free_slot` puts the slot back in use, empty, and leaves the head of the free list on it: the heap is
  never sound afterwards (`Undo.UndoFree`, `Undo.UndoneFreeIsUnsound`). Recovery rebuilds the list
  (`Txn.Db.RebuildFreeList`), abort does not.
- Callers ignore a full log, so records past it are lost, and abort restores what the recorded prefix names and keeps
  the rest as it was left (`FullLog.LogIsPrefix`, `FullLog.FullLogUndoesPrefix`). A dropped change of a link, a status
  or a payload is undone if and only if the log restores every field that it has made different
  (`FullLog.DroppedChange`); a log of any size has an input where it does not (`FullLog.FullLogWitness`). A dropped
  allocation is never undone (`FullLog.DroppedAlloc`), and one of which only the first record fits comes back one free
  slot short (`FullLog.HalfRecordedAlloc`).
- Recovery treats a mapping left in the middle of an abort as if it were clean (`Txn.Db.Recover`).
- `ef_chase_n` sees a cycle only if it is entered within the first 64 slots and closes before the hop limit;
  otherwise it walks round it and reports success.
- `THREADING.md:11` and `THREADING.md:28` keep the index sequence in the mapping, for readers in other processes;
  the code keeps it in the handle (`src/endfields.h:151-152`). The model follows the code: the theorem is about the
  threads of one handle.

## Model

| member | source | states |
|---|---|---|
| Crc32.WordAtOnce | src/ef_crc.c:57-72 | xoring four bytes into the register at once and shifting 32 times equals absorbing them one by one, for every state |
| Crc32.SliceStep | src/ef_crc.c:36-48 | the four table rows, xored, advance the register by 32 steps |
| Crc32.ReferenceConcat | src/ef_crc.c:84-92 | updating over a concatenation is updating over the parts in turn |
| Crc32.Tables.EnsureInit | src/ef_crc.c:18-55 | after it the four rows hold the register advanced by 8, 16, 24 and 32 steps, from any earlier state |
| Crc32.Tables.Update | src/ef_crc.c:57-82 | for every start state and byte string the slicing loop returns the bit-at-a-time CRC |
| CrcDivision.ReferenceIsRemainder | src/ef_crc.c:10-34 | for every start and byte string the register is the bit-reversed remainder of the long division of start and message by x^32 + x^26 + x^23 + x^22 + x^16 + x^12 + x^11 + x^10 + x^8 + x^7 + x^5 + x^4 + x^2 + x + 1 |
| CrcDivision.CheckValue | src/ef_crc.c:102-105 | the CRC of the nine digits 1 to 9 is 0xCBF43926 |
| Crc32.Tables.Of | src/ef_crc.c:102-105 | the register from all ones over the bytes, with all bits turned over |
| RobinHood.FindCorrect | src/ef_index.c:298-328 | on every ordered table the probe returns the map's answer, hit or miss, for every key |
| RobinHood.StopMeansAbsent | src/ef_index.c:305-325 | an empty bucket, or one nearer its home than the probe, proves that the key is nowhere in the table |
| RobinHoodPut.PutKeepsOrder | src/ef_index.c:237-296 | every displacement chain, whatever its outcome and even on a full table, keeps the Robin Hood order and unique keys |
| RobinHoodPut.PutPresent | src/ef_index.c:280-284 | a key that is present is found before the first swap: success, no entry added, exactly that key updated |
| RobinHoodPut.PutExact | src/ef_index.c:262-296 | with an empty bucket left: fails if and only if the key is new and the table is in the hazard state; success is exactly the map update; a failure stores the new key and drops exactly the entry in hand |
| RobinHoodPut.SuccessIsUpdateIff | src/ef_index.c:262-296 | on any ordered table a reported success is the map update if and only if the key was present or a bucket was empty |
| RobinHoodPut.HazardWitness | src/ef_index.c:264-292 | four buckets, two entries: an insertion fails and drops another key |
| RobinHoodPut.PutFull | src/ef_index.c:262-296 | on a full table a new key costs exactly one entry, itself or an older one, whether the call reports success or not; if itself, nothing changes |
| RobinHoodPut.PutEffect | src/ef_index.c:237-296 | on any ordered table the map afterwards is the update less at most one key; one is lost if and only if the key is new and meets a full table or the hazard state |
| FullTables.SuccessIff | src/ef_index.c:262-296 | on a full table a new key is reported stored if and only if its home lies before the home of every entry and no entry lies in the bucket before its own home |
| RobinHoodPut.FullTableWitness | src/ef_index.c:264-292 | full tables of every size from three up on which an insertion reports success and drops another key |
| RobinHoodRemove.ShiftCorrect | src/ef_index.c:572-600 | the backward shift ends on every ordered table, full ones included, restores the order, and removes exactly the entry in the hole |
| RobinHoodRemove.RemoveCorrect | src/ef_index.c:547-604 | removal succeeds if and only if the key is present, and leaves an ordered table with the map minus that key |
| IndexTable.FindEntry | src/ef_index.c:298-328 | the probing loop over the words gives NOT_FOUND or the entry that the specification finds |
| IndexTable.PutEntry | src/ef_index.c:237-296 | the insertion loop in place leaves the specified table, the same result and added flag, and no other word changed |
| IndexTable.RemoveByHash | src/ef_index.c:547-604 | the removal loop in place leaves the specified table and result, and no other word changed |
| Rebuild.OffsetRoundTrip | src/endfields.c:1208-1243 | offsets and slot ids are inverse to each other, both ways, and only offsets of existing slots name one |
| Rebuild.OffsetOutcome | src/endfields.c:1219-1243 | OFFSET exactly for offsets before the region or between two slots, SLOT_ID exactly for those behind the last slot |
| Rebuild.FixupKeepsNames | src/ef_index.c:113-147 | a fixed-up offset names the slot that it named before the move if and only if it did not lie in the gap below the old region |
| Hazards.HazardByKeys | src/ef_index.c:262-296 | on every ordered table with an empty bucket the hazard state depends on the keys alone, wherever they stand: a count of their homes decides it |
| Hazards.PutByKeys | src/ef_index.c:262-296 | an insertion fails if and only if the key is new and the homes of the keys present make the hazard |
| Hazards.ReinsertExact | src/ef_index.c:882-905 | for any number of entries, reinsertion leaves an ordered table with exactly so many of them as can be placed; with all placed it succeeds with exactly the collected map; with some missing it fails, or the table is full |
| Hazards.PlacedMeans | src/ef_index.c:896-903 | all are placed if and only if they are no more than the buckets and none finds the keys before it in the hazard state; else those before the first that does, or as many as there are buckets |
| Hazards.StuckAtEnds | src/ef_index.c:896-903 | at any capacity: two keys for the last bucket with one for the first before the second of them get stuck |
| Rebuild.StuckInOrder | src/ef_index.c:896-903 | three keys that cannot be inserted in this order into an empty table of 16 buckets |
| Hazards.ShrinkWitness | src/ef_index.c:882-903 | an ordered table of 32 buckets with three keys whose collected entries cannot be reinserted into 16 empty ones |
| Hazards.GrowthWitness | src/ef_index.c:882-903 | twelve successful insertions into 16 empty buckets give a table whose rehash to 32 gets stuck |
| IndexSizing.PickCapacity | src/ef_index.c:984-1013 | the least doubling of the starting capacity that carries the entries; zero only if none up to the maximum does |
| IndexSizing.PickShrinkCapacity | src/ef_index.c:1062-1119 | a result is the least power of two from 16 that keeps the load factor, and is smaller; zero in exactly the listed cases |
| Layout.LoadFactors | src/ef_index.c:368-372 | growth from three quarters on, shrinking below one eighth, to the entry |
| Layout.NothingPicked | src/ef_index.c:984-1013 | no capacity is found for more than 24576 entries |
| IndexMemory.RehashMeaning | src/ef_index.c:830-914 | from any ordered table, even one with more keys than the new buckets: exactly as many keys are left as can be placed, each with its slot id; all of them if and only if they fit and do not stick, and then it succeeds |
| IndexMemory.MovedSlotMeans | src/ef_index.c:113-147 | status and payload move unchanged, and a link names the same slot id if and only if it was no stray |
| IndexMemory.MovedLinks | src/ef_index.c:113-147 | on a sound heap every link names the same slot id after the move, with checksums renewed or not |
| IndexMemory.StrayWitness | src/ef_index.c:113-147 | an offset that named no slot of 32 buckets names slot 0 after the shrink to 16 |
| IndexMemory.RenewedMeans | src/endfields.c:330-354 | renewing a slot's checksum keeps status, payload and link, and the slot passes the reader's test |
| IndexMemory.DecodeBytes | src/endfields.h:14-17 | the 64 bytes of a slot: status, checksum, payload and link, least significant byte first |
| IndexMemory.RenewedAreGood | src/endfields.c:385-404 | after the loop every slot passes the reader's test with its new link |
| IndexMemory.SeenMoved | src/ef_index.c:830-914 | the move changes no status, no payload and no slot that a link names |
| Slots.CrcDetects | src/endfields.c:199-231 | under an injective checksum a stored checksum is good for exactly that slot id, status and link, and for statuses 1 and 2 that payload; statuses 3 to 6 leave the payload out |
| Slots.CrcTest | src/endfields.c:385-404 | the reader's test exactly: a slot of status 1 to 6 needs a stored checksum, over its payload for 1 and 2, with or without it for 3 to 6; all others pass |
| IndexMemory.RefreshChecksums | src/endfields.c:337-354 | the loop renews every slot and leaves the table as it was |
| IndexMemory.MemMove | src/ef_index.c:868-871 | the overlapping move leaves the destination equal to the old source |
| IndexMemory.Relocate | src/ef_index.c:837-905 | moving, fixing up, clearing and reinserting leave every slot whole with its link fixed and the table of the specification; the recount is that of the old words at the new capacity |
| Index.ShrinkLosesKeys | src/ef_index.c:649-659 | an ordered table of 32 buckets that is due to shrink to 16 when a removal leaves it, and gets stuck there with two entries and a counter of one |
| Index.CounterAfterShrink | src/ef_index.c:93-99 | the counter behind a shrink is exact if and only if no key is lost, or the first buckets of the old table hold as many entries as were placed |
| Index.SuccessMeans | src/ef_index.c:450-463 | a put that reports success is exactly the map update if and only if the key was present or there was a bucket for it |
| Index.GrowthLosesKeys | src/ef_index.c:425-445 | puts alone fill a table that the next new key makes grow, and growth gets stuck |
| Index.Handle.RehashTo | src/ef_index.c:733-915 | with a right or a wrong counter: which requests are turned down and how; loses keys if and only if it passes its tests and the old keys stick at the new capacity or are more than its buckets; how many are left; success makes the counter the number collected and leaves every slot with a good checksum for its new link, failure leaves the recount and old checksums; list heads, queue words and links name the same slots; a failure before the move changes nothing |
| Index.Handle.Put | src/ef_index.c:376-463 | with a right or a wrong counter: where it reaches the table, the map is the update less the one key that may be lost, lost if and only if the new key meets a full table or the homes make the hazard; with room, that is exactly when it fails, and on a full table success is reported in exactly the stated case; growth gets stuck if and only if the keys stick; an exact counter and the load bound are kept unless it does; every error exactly; slots, list head and queue stay as their users see them |
| Index.Handle.Get | src/ef_index.c:465-480 | answers as the map does, hit, miss and slot id, whatever the counter says |
| Index.Handle.Remove | src/ef_index.c:606-664 | with a right or a wrong counter: OK if and only if the key is present; exactly the key goes, if and only if the table without it is not due for a shrink that loses keys; else exactly as many stay as can be placed; table and counter in every case; slots, list head and queue stay as their users see them |
| Index.Handle.RemoveBySlot | src/ef_index.c:666-731 | drops the key of the first bucket that names the slot, and reports OK; none dropped only if none named it; the others, the table, the counter and the slots as for a removal |
| Index.Handle.Clear | src/ef_index.c:922-963 | the empty map with an exact counter in at most 16 buckets, whatever was wrong before; slots, list head and queue stay as their users see them |
| Index.Handle.KeysAreBuckets | src/ef_index.c:93-99 | in every reachable state there are as many keys as taken buckets, and a bucket is empty if and only if they are fewer than the capacity |
| Index.Handle.RoomLeft | src/ef_index.c:368-372 | as long as the counter is exact the load bound leaves an empty bucket, and every put that reaches the table finds room |
| Miscount.SilentLoss | src/ef_index.c:606-664 | a concrete run on a new index: eight puts, a removal and eleven puts all report success, and a key that was put and never removed is gone at the last one |
| Seqlock.NextKeeps | src/ef_sb_layout.c:252-344 | every step of every thread, each write section carrying out one put, removal, clearing or rehash with any stores on the way, keeps: one lock holder, an odd sequence exactly inside a write section, a well-formed table whenever it is even, and what each reader has sampled |
| Seqlock.OutcomeIsWellFormed | src/ef_index.c:237-296 | what a put, removal, clearing or rehash makes of a table, failures and stuck rehashes included, is an ordered table |
| Seqlock.AcceptedReadsAreLinearizable | src/ef_index.c:330-365 | an accepted hit or miss is the answer of the map of the one table version current when the sequence was sampled, between call and return |
| Seqlock.ReturnedIds | src/ef_index.c:465-480 | the slot id that a read returns is that of the map if and only if the base of the slots is still the one of the sampled version |
| Seqlock.StaleBaseWitness | src/endfields.c:1220-1243 | a shrink from 32 to 16 buckets between read and conversion turns slot 1 into slot 5 |
| Seqlock.OneWriter | src/ef_index.c:176-201 | at most one thread is in a write section |
| Seqlock.ReadAlone | src/ef_index.c:330-365 | a read that no writer disturbs is accepted, with the answer of the map |
| Seqlock.WriteAlone | src/ef_sb_layout.c:252-344 | a writer alone can carry out any outcome and raises the sequence by two |
| Seqlock.CallsAreOutcomes | src/ef_index.c:237-296 | what insertion, removal, clearing and reinsertion make of the table are outcomes of a write section |
| ByteLocks.StepIsAtomicOrStutters | src/ef_atomic_unaligned.h:461-511 | every step of an emulated byte operation, or of the capacity read-modify-write with its separate reload, is the atomic operation on its own field or changes nothing |
| ByteLocks.LoopAlone | src/ef_atomic_unaligned.h:461-511 | without interference a swap fails at its load if and only if its byte does not match, and every other loop ends at its first swap, with the effect of the atomic operation |
| ByteLocks.EmulationIsLinearizable | src/ef_sb_layout.c:86-122 | in every interleaving the word is what the operations, applied one at a time in the order they took effect, leave, with the results they returned |
| ByteLocks.MutualExclusion | src/ef_sb_layout.c:183-293 | each of the two locks has at most one holder |
| FreeListSteps.NextKeeps | src/endfields.c:242-327 | every step of every thread keeps an acyclic list, every slot in exactly one place, and free count = length + pops awaiting decrement - pushes awaiting increment, never negative |
| FreeListSteps.RunKeeps | src/endfields.c:1715-1737 | this holds in every state of every run, pops under the lock and pushes under none |
| FreeListSteps.NoDoubleAllocation | src/endfields.c:263-290 | no slot is handed out twice, nor while it is on the list |
| FreeListSteps.QuietCount | src/endfields.c:277-321 | with no thread inside an operation the free count is the length of the list |
| FreeListSteps.PopReports | src/endfields.c:242-293 | a pop gives up if and only if the list is empty, or the count is zero, and then on a list that is not empty some push has not counted its slot yet; one that wins takes the first slot |
| FreeListSteps.PopAlone | src/endfields.c:242-293 | alone, with the lock free and a slot counted, it hands out the first slot of the list |
| FreeListSteps.PushAlone | src/endfields.c:295-327 | alone, it puts its slot first and counts it |
| QueueSteps.StepKeeps | src/ef_queue.c:37-240 | every step of pushers, dummy makers and poppers keeps the queue sound and every slot in exactly one place |
| QueueSteps.FirstInFirstOut | src/ef_queue.c:104-240 | messages popped, followed by those linked and waiting, are the messages linked, in lock order |
| QueueSteps.LinkedAfterTail | src/ef_queue.c:72-76 | nothing is linked before the tail is set, and the linked slots always form a chain that ends |
| QueueSteps.OneDummy | src/ef_queue.c:49-85 | the head, once set, never changes: at most one dummy is ever installed |
| QueueSteps.SlotsAreConserved | src/ef_queue.c:37-86 | no slot is in two hands, or in a hand and in the queue, through every lost race |
| QueueSteps.PopReports | src/ef_queue.c:159-240 | QUEUE_EMPTY if and only if all linked messages have been popped, PAYLOAD_LEN if and only if the oldest does not fit, else the oldest is taken; NOT_FOUND never |
| QueueSteps.PushReports | src/ef_queue.c:104-157 | under the lock a push fails if and only if no tail is set, and then nothing has been linked; else it links its message last |
| QueueSteps.PushAlone | src/ef_queue.c:104-157 | alone, with the lock free, a free slot and the tail set, a push links its message and ends |
| QueueSteps.FirstPushAlone | src/ef_queue.c:37-86 | the first push alone installs a dummy and links its message after it, from two free slots |
| QueueSteps.PopAlone | src/ef_queue.c:159-240 | alone, with the lock free and a message that fits, a pop takes the oldest message, gives its slot back and reports OK |
| Slots.BytesRoundTrip | src/ef_undo.c:254-260 | numbers stored as little-endian bytes read back, for every number that fits |
| Slots.ByteOf | src/ef_undo.c:254-260 | the least significant byte comes first |
| Heaps.TakeFits | src/endfields.c:242-293 | taking the first free slot keeps the heap sound |
| Heaps.GiveHead | src/endfields.c:295-327 | returning a slot keeps the heap sound |
| Heaps.AttachFits | src/ef_blob.c:305-334 | linking a new overflow slot keeps the heap sound, all other lists untouched |
| Heaps.EnqueueFits | src/ef_queue.c:104-157 | linking a message after the tail keeps the heap sound |
| Heaps.DequeueFits | src/ef_queue.c:159-240 | unlinking the first message, the tail included, keeps the heap sound |
| Heaps.ClaimFits | src/endfields.c:1428-1465 | taking a slot out of the middle of the free list keeps the heap sound |
| Layout.SoundHeap | src/endfields.c:607-651 | a sound heap in offsets and statuses: free list, queue and chains run through slots of status 0, 4 and 3, and 2, and end; count, tail and all checksums are right |
| Blobs.EverySlotOnce | src/endfields.c:1805-1857 | on a sound heap every slot is in exactly one of free list, queue, heads, one head's chain, and the free count is the length of the list |
| Blobs.FreeingOverflowBreaks | src/endfields.c:1838-1856 | freeing an overflow slot by itself always leaves a heap that no shape fits |
| Blobs.ReadBack | src/ef_blob.c:379-438 | what a read copies from a stored blob is the blob, or exactly as many first bytes as the buffer takes |
| Blobs.OverflowsAreEnough | src/ef_blob.c:11-23 | the number of overflow slots holds the blob, and one less would not |
| Blobs.HeaderReads | src/ef_blob.c:25-45 | the header's magic number and length read back for every 32-bit length |
| Layout.HeaderBytes | src/endfields.h:49-51 | the header is the letters B, L, O, B and the length, least significant byte first |
| Layout.BlobSlots | src/ef_blob.c:11-23 | a head takes 40 bytes of a blob and each overflow slot 48 more |
| Blobs.ZerosAreNoBlob | src/ef_blob.c:310-318 | a cleared header does not read as a blob |
| Release.ReleaseFits | src/ef_blob.c:144-170 | on a sound heap release returns the whole chain to the free list, last slot first |
| Release.ReleaseTouches | src/ef_blob.c:131-171 | on any heap, cyclic ones included, release ends, only overflow slots change, and they become free and empty |
| Release.ReleaseCounts | src/ef_blob.c:131-171 | on any heap the free count rises by the number of overflow slots that went |
| Release.ReleaseExact | src/ef_blob.c:131-171 | on any heap exactly the overflow slots on the walk are freed, in order, whatever ends it: OK if and only if it ends at zero, NOT_FOUND at a slot that is no overflow slot or freed already, OFFSET or SLOT_ID at an offset that names none |
| Release.WalkFrom | src/ef_blob.c:144-170 | every offset starts such a walk |
| Release.CircleEnds | src/ef_blob.c:144-170 | a slot linked to itself is released once and then reported |
| Store.SlotStore.constructor | src/endfields.c:607-651 | a new database is a sound heap with all slots free in ascending order |
| Store.SlotStore.AllocSlot | src/endfields.c:1691-1795 | hands out the first free slot, or SLOT_FULL with nothing changed exactly when there is none |
| Store.SlotStore.Grow | src/ef_grow.c:169-248 | its three outcomes by size, new slots in front of the free list, the last one first, all else kept |
| Store.SlotStore.AllocEx | src/endfields.c:1867-1886 | hands out the next slot of the supply, growing if needed; fails exactly when the supply is empty |
| Store.SlotStore.ReleaseChain | src/ef_blob.c:131-171 | ends on every heap, with the result of the specification |
| Store.SlotStore.FreeSlot | src/endfields.c:1805-1857 | its outcome for each status; a freed head and its whole chain are back on the free list, all else kept |
| Store.SlotStore.QueuePush | src/ef_queue.c:242-287 | appends exactly the message, or fails in exactly the listed cases with nothing leaked; heads keep what they hold |
| Store.SlotStore.QueuePop | src/ef_queue.c:159-303 | gives the oldest message and removes exactly it, or leaves everything unchanged when empty or the buffer is short |
| Store.SlotStore.Claim | src/endfields.c:786-816 | takes exactly that slot out of the free list, wherever it stands |
| Store.SlotStore.WriteBlob | src/ef_blob.c:210-345 | succeeds if and only if the reusable slots cover the overflow count; then stores the blob in exactly the first of them, behind it what the head held there, or zeros in the last slot; a failure leaks none and leaves no blob; other heads and messages are kept |
| Store.SlotStore.ReadBlob | src/ef_blob.c:347-438 | returns the stored length and the copied prefix, or NOT_FOUND exactly when there is no header |
| Undo.ApplyMeans | src/endfields.c:1467-1648 | a failing operation changes and records nothing; a successful one changes its slot alone, as asked, an allocation takes exactly the first free slot, and good checksums stay good |
| Undo.AllocOutcome | src/endfields.c:1691-1737 | an allocation succeeds if and only if the list head names a slot and the count is not zero; which of SLOT_FULL, OFFSET and SLOT_ID it gives otherwise |
| Undo.NextOutcome | src/endfields.c:1525-1566 | a link change succeeds if and only if the slot is used, has a good checksum and no overflow chain, and the link is zero or names a slot; each error exactly |
| Undo.StatusOutcome | src/endfields.c:1467-1523 | a status change succeeds if and only if the slot exists; it is recorded unless it makes a used slot used |
| Undo.PayloadOutcome | src/endfields.c:1568-1648 | a payload write succeeds if and only if there are at most 48 bytes and the slot exists with a good checksum; each error exactly |
| Undo.RecordsInLog | src/ef_txn.c:136-189 | the records of each operation as they are in the log: kind, offset, bytes; none only where nothing changes |
| Undo.InvertMeans | src/ef_undo.c:162-367 | what the replay of one record of any kind does to any heap: which fields come back from which bytes, which stay, and the checksum |
| Undo.CountMeans | src/ef_undo.c:345-356 | replaying +1 takes one off a count that is not zero, replaying -1 adds one to a count that is not zero |
| Undo.UndoFree | src/endfields.c:1852-1856 | undoing the two records of a slot free, for any slot: old status and link, a good checksum, an empty payload, the count as before, and the list head left on the slot |
| Undo.UndoneFreeIsUnsound | src/ef_undo.c:209-231 | after that no heap is sound: the list head is left on a slot that is not free |
| Undo.UndoExact | src/ef_undo.c:162-367 | replaying an operation's records restores the heap if and only if the operation is invertible, a condition on the state before it |
| Undo.UndoAlloc | src/ef_undo.c:190-207 | undo of an allocation is exact if and only if two slots were free and the slot was clean |
| Undo.UndoNext | src/ef_undo.c:178-188 | undo of a link change is always exact |
| Undo.UndoStatus | src/ef_undo.c:162-176 | undo of a status change is exact if and only if the old status had a checksum or none was stored |
| Undo.UndoPayload | src/ef_undo.c:280-294 | undo of a payload write is exact if and only if the slot was used and the bytes past the eighth did not change |
| Undo.LastSlotIsMiscounted | src/ef_undo.c:345-356 | undoing the allocation of the last free slot leaves the count at zero |
| Undo.AllocOnSoundHeap | src/ef_undo.c:190-207 | on a sound heap an allocation is invertible unless exactly one slot is free |
| Undo.ReplayIsInverse | src/ef_undo.c:233-367 | after any run of invertible operations whose records fit the log, replay restores slots, free-list order and free count |
| FullLog.LogIsPrefix | src/ef_undo.c:85-134 | the log ends with the first records of the transaction, exactly as many as it has room for |
| FullLog.FullLogUndoesPrefix | src/ef_undo.c:233-367 | after operations that filled the log and any change of other slots, replay restores every slot that the log names and the free list, and keeps the other slots as they are |
| FullLog.ReplayMends | src/ef_undo.c:233-367 | replay makes two heaps that differ in one slot equal if and only if the log holds a record that restores each field that differs; the payload past its eighth byte never is |
| FullLog.DroppedChange | src/ef_undo.c:109-112 | the old heap comes back after a change of a link, status or payload that the full log dropped if and only if the log restores every field that the change made different |
| FullLog.DroppedLinkChange | src/ef_undo.c:109-112 | for a link change: if and only if the log holds a record that restores that link |
| FullLog.DroppedStatusChange | src/ef_undo.c:109-112 | for a status change: if and only if the log holds a record that restores that status |
| FullLog.DroppedAlloc | src/endfields.c:1691-1737 | an allocation whose records the full log dropped is never undone: the free count comes back too low, by exactly how much |
| FullLog.FullLogWitness | src/ef_undo.c:109-112 | for every size of log: invertible operations that fill it, and one more after which replay does not give the old heap |
| FullLog.HalfRecordedAlloc | src/endfields.c:1691-1737 | after any operations that leave room for one record, an allocation is undone but for the count, one too low |
| Txn.Db.Begin | src/ef_txn.c:29-62 | an empty log and an active state, or TXN_BUSY with nothing changed |
| Txn.Db.Commit | src/ef_txn.c:64-83 | keeps every slot, empties the log, ends in state NONE |
| Txn.Db.AppendRecord | src/ef_undo.c:85-134 | appends the record inside a transaction with room, and changes nothing otherwise |
| Txn.Db.AllocSlot | src/endfields.c:1691-1737 | heap, result and records of the effect that `Undo.AllocOutcome`, `ApplyMeans` and `RecordsInLog` describe |
| Txn.Db.SetNextOffset | src/endfields.c:1525-1566 | heap, result and records of the effect that `Undo.NextOutcome`, `ApplyMeans` and `RecordsInLog` describe |
| Txn.Db.SetStatus | src/endfields.c:1467-1523 | heap, result and records of the effect that `Undo.StatusOutcome`, `ApplyMeans` and `RecordsInLog` describe |
| Txn.Db.WritePayload | src/endfields.c:1568-1648 | heap, result and records of the effect that `Undo.PayloadOutcome`, `ApplyMeans` and `RecordsInLog` describe |
| Txn.Db.ReplayReverse | src/ef_undo.c:233-367 | the backward loop leaves the replayed heap and its result, one record after the other as `Undo.InvertMeans` says |
| Txn.Db.Abort | src/ef_txn.c:85-107 | the replayed heap, an empty log, the lock released |
| Txn.Db.Recover | src/ef_txn.c:109-132 | from every state of the mapping: a stale active transaction is replayed and cleared; otherwise, ABORTING included, it returns OK and nothing changes |
| Txn.Db.RebuildFreeList | src/endfields.c:653-677 | for any slot contents: every slot keeps status and payload, every slot that is not free its link, every checksum is good, and the free list is the free slots in ascending order, counted |
| Txn.RebuiltList | src/endfields.c:653-677 | the rebuilt links run through exactly the free slots, each once, and end |
| Txn.Db.Reopen | src/endfields.c:748-758 | after a crash between operations: recovery, then the rebuilt list with every slot kept and every checksum good; state NONE with an empty log |
| Txn.Db.AbortedTransaction | src/ef_txn.c:29-107 | begin, any invertible operations, abort: every slot, the list order and the count as at begin |
| Txn.Db.CrashedTransaction | src/ef_txn.c:109-132 | begin, any invertible operations, crash, reopen: status and payload of every slot and the link of every slot in use as at begin, with good checksums, on a rebuilt list |
| Chase.PathFrom | src/endfields.c:1337-1418 | every chain from a slot ends, loops back, or meets an unused slot, within as many slots as exist |
| Chase.ChaseN | src/endfields.c:1337-1418 | the exact outcome for each kind of chain: slot number min(hops, last); CYCLE if and only if entered within 64 slots and closed before the limit; DEPTH and SLOT_FREE exactly; OFFSET for a start that names no slot |

## Left out

- File backend (`src/ef_port.c`), opening by path, mapping, flushing and superblock checksums: foreign calls; the memory backend is modelled.
- The carry-less-multiply CRC kernel: vendor intrinsics; the slicing form is what it has to equal.
- FNV-1a hashing of key strings: the index is modelled on 64-bit key hashes, so two strings with one hash are one key there as in the code.
- Exhausted spin limits, yields and memory fences: every lock attempt may fail in the queue protocol, but counts of attempts are not modelled; interleavings are sequentially consistent.
- Out-of-memory of the rehash backup, read-only handles and null arguments.
- Index.Handle.Put: on a full table it says that exactly one key is lost, and when the call reports success all the same; which key goes is what the insertion loop does, and is not put in terms of the homes.
- Index operations inside a transaction, iterators, `ef_execute.c` dispatch, schema upgrade.
- Seqlock.AcceptedReadsAreLinearizable: assumes that no read lasts over 2^32 increments of the 32-bit sequence.
- Growth, rehash and claiming of slots as concurrent steps: the code leaves serialising them to the caller.
- The queue's slot return failing on the index lock, which would lose a popped message: the layout without an index is modelled, where it cannot fail.
- `ef_set_next_offset` in the slot-heap part: a caller can link a head into another blob's chain, and the separation of chains is then the caller's; it is covered in the transaction part, on any heap.
- Checksums of slots are a parameter that is never zero (a stored zero reads as missing, `src/endfields.c:395-397`) and fits 32 bits; `Crc32` is the function that the code uses.
- Store.SlotStore.WriteBlob: outside a transaction only; inside one the code unlinks the old chain without returning it.
- Store.SlotStore.FreeSlot: outside a transaction only.
- Txn.Db.SetStatus: freeing and claiming through a status change are not covered inside a transaction, because their records do not hold enough to invert them.
- Txn.Db.WritePayload: claiming a free slot by writing to it is not covered inside a transaction.
- Undo of queue operations, blob chains and index entries: the records do not hold enough. Replay of slot-free records is modelled on any heap, the queue and index kinds are not.
- Txn.Db.Reopen: crashes inside one operation, between a store and its record, or while aborting (the state ABORTING is not recovered by the code).
- The undo log after growth or a rehash: its base is bound when the database is opened and not again.
- Chase.ChaseN: links of used slots name slots, as `ef_set_next_offset` checks, and a start offset does not fall on a 64-byte step inside the undo log; the code would read other mapped bytes there as a slot.
- Legacy schemas: 52-byte payloads and 32-bit lock words.
- Slot counts of 2^32 - 1 and more, where the 32-bit free count would wrap.
