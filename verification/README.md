# Ring and heap: model and proofs

This project models two components in Dafny and proves what they are for.

**The ring** (`ring/ring.c`, `ring/ring.h`, `ring/test2.c`) is a bounded first-in first-out queue in a power-of-two
array with free-running 32-bit head and tail counters for producers and for consumers. It is modelled twice.

- As objects: `Ring` and `HeadTail` are classes with the fields of the C structures, the buffer is an array, and the
  unrolled, wrap-splitting copy loops, the head moves, the bulk and single operations, initialisation and creation are
  methods. `QueueRun` shows that any sequence of calls is a bounded queue.
- As a protocol: `RingProtocol` is a step machine with any number of threads, one step per shared access (load own
  head, load opposite tail, test, compare-and-set or store, copy one word, poll the tail, publish). All theorems about
  it are over every schedule. The same step function runs on unbounded counters and on 32-bit words; `RingWords` proves
  exactly when the second machine is the low words of the first, `RingSolo` that a call which runs on its own does what
  the methods of the class do, and `RingStale` and `RingOverrun` what a thread that sleeps for long can run into.

**The heap** (`memory_manage/malloc_elem.c`, `memory_manage/malloc_heap.c` and their headers) keeps an address-ordered
doubly linked list of elements, free elements also on one of 13 size-class lists. `Elements`, `FreeLists`, `Heap` and
`MallocHeap` are imperative: `Elem` has mutable `prev`, `next`, `size` and `state`, `Heap` has `first`, `last`,
`freeHead`, `allocCount` and the memory as an array of bytes. `Blocks` is the same list as a sequence of
(address, size, busy) values with the algebra of inserting, allocating and freeing; `HeapRuns` proves safety of every
run of allocations, frees and writes, and `HeapSession` shows that any sequence of calls on a created heap is such a
run. The bodies of the heap functions are in `memory_manage/malloc_heap.c`, whose comments are not valid UTF-8; the
table cites their declarations and gives the lines of the bodies in the text.

Files, from the bottom: `Bits` (powers of two, and/or/shift on numbers, 32-bit words), `Alignment`, `RingCopy`,
`QueueSpec`, `Ring`, `QueueRun`; `RingProtocol`, `RingCalls`, `RingInvariant`, `RingSteps`, `RingSafety`, `RingTraces`,
`RingProgress`, `RingWords`, `RingSolo`, `RingStale`, `RingOverrun`; `SizeClass`, `Blocks`, `Elements`, `FreeLists`,
`Heap`, `HeapRuns`, `MallocHeap`, `HeapSession`.

## Assumptions

- Shared loads and stores of the ring are sequentially consistent, and `rte_atomic32_cmpset` is one atomic step.
- The protocol's configuration has a power-of-two size, capacity below the size, at least one word per element, and
  twice the number of words of the buffer at most 2^32, so that scaled indices of the 32-bit copy path cannot wrap.
- A side created as single-threaded has at most one call under way (`MayBegin`); a multi-threaded side has no limit.
- The unbounded machine needs no staleness bound. The 32-bit machine agrees with it along a schedule if and only if no
  load of an opposite tail finds a room of 2^32 or more and no multi-threaded compare-and-set passes a head that has
  moved by a positive multiple of 2^32 (`RingWords.RunRefines`); fewer than 2^32 - capacity elements reserved on a
  thread's side since it loaded the head are enough for that (`RingWords.FreshRunRefines`), and for producers that bound
  is sharp (`RingStale.WrongRefusal`).
- A caller's object table does not change while it is copied; all operations on a ring use its creation element size.
- In the `Ring` class one thread runs at a time, so the wait in `update_tail` is already over when it is reached.
- The length of an element header is a symbol, positive and otherwise arbitrary. The memory `malloc` gives for the
  heap structure is taken to be zero: `malloc_heap_create` does not set `first`, `last` or the list heads itself.
- Alignments handed to the element layer are powers of two, and elements lie high enough in the address space that
  subtracting an alignment and a header cannot wrap.

## What the proofs found

- `malloc_elem_can_hold` does not ask for room for the header of the remainder that `malloc_elem_alloc` always leaves.
  The heap comes out intact if and only if the chosen start is at least a header above the element (`Heap.Heap.Alloc`);
  a caller of `heap_alloc` can tell beforehand, from the first holder on the lists (`MallocHeap.KeepsHeap`). An element
  that fits the request exactly ends up with size 0 and `next` pointing to itself (`SizeClass.ExactFitExample`, and
  `SizeClass.ExactFitExample56` for a header of 56 bytes; `Heap.Heap.CarveInPlace`). So a created heap whose whole
  region is asked for serves the request and is no heap afterwards (`MallocHeap.ExactFitSpoils`,
  `MallocHeap.ExactFitHeap`). Closer than a header, the stores to the old and the new header overlap; the model keeps
  nothing of them but that the size of the remainder is below a header.
- `heap_alloc` rounds sizes within a cache line of 2^64 up to zero; the requested bytes are set aside if and only if
  the size is at most 2^64 - 64 (`SizeClass.RoundupIs`). The comment in the code announces an overflow check, but the
  code only rejects size 0.
- `rte_ring_create_elem` ignores the result of `rte_ring_init`: unsupported flags leave the ring unset. With supported
  flags a ring is usable if and only if the count is a good one (`Ring.CreationCases`, `Ring.Create`); count 0, and
  with `RING_F_EXACT_SZ` counts from 2^31 on, are accepted and give size 0.
- The two forms of rounding in `ring/test2.c` agree on 1..2^31 and differ at 0 (`Alignment.CompareForms`). The doubling
  loop ends if and only if the argument is at most 2^31: above, the doubled word falls to 0 and stays below it
  (`Alignment.LoopEndsIff`).
- The comments that `free_entries` is always between 0 and capacity and `entries` between 0 and size - 1 hold if and
  only if the side was created for a single thread (or the capacity is 0), on unbounded counters as on every 32-bit run
  whose words are right; for a side that several threads use no bound below 2^32 - 1 holds (`RingStale.RoomBoundedIff`).
  For every number of elements that pass by a thread between its two loads there is a run in which it computes the
  capacity plus that number (a producer) or that number (a consumer), reduced to a word (`RingStale.RoomReached`); a
  producer's room is the capacity plus the number if and only if the number is below 2^32 - capacity
  (`RingStale.RoomExceedsCapacity`), and it is 2 in a ring of capacity 1 (`RingStale.RoomExceedsCapacityExample`). The
  compare-and-set rejects such a reservation unless the room is really there (`RingTraces.CommitHasRoom`).
- A call refused by the 32-bit code, at once or after lost races, found too little really available when it loaded the
  opposite tail, on every run on which the machines agree (`RingWords.WordsRefusalJustified`). Beyond that it can be
  wrong: for every number from 2^32 - capacity up to 2^32 - 1 of elements passing by a sleeping producer, an empty ring
  refuses a request that would fit (`RingStale.WrongRefusal`).
- When 2^32 elements have been reserved past a producer asleep at its compare-and-set, the 32-bit code lets it go
  through on a full ring: twice the capacity is then reserved beyond the consumers' tail, and the copy replaces exactly
  the oldest 2 * capacity - size unread elements (`RingOverrun.StaleOverrun`).
- Freeing what was just allocated restores the list if and only if the block to its right was not a free neighbour
  (`Blocks.FreeUndoesAlloc`, `MallocHeap.AllocThenFree`), and a fully merged heap has none.
- `malloc_heap_create` does not ask whether the region has room for a header; the heap is valid if and only if it has
  (`MallocHeap.MallocHeapCreate`).

## Model

| member | source | states |
|---|---|---|
| Bits.PowerTest | ring/ring.h:7 | `POWEROF2` accepts a positive number if and only if it is a power of two |
| Bits.AndBits | ring/ring.c:90 | for every bit position, x & y has the bit if and only if both have it |
| Bits.OrBits | ring/ring.h:91-100 | for every bit position, the bitwise or of x and y has the bit if and only if either has it |
| Bits.AndNotBits | memory_manage/common.h:11-12 | for every bit position, x & ~y has the bit if and only if x has it and y has not |
| Bits.ShrBits | ring/ring.h:91-100 | x >> n has at every position the bit that x has n positions further up |
| Bits.SameBits | ring/ring.h:91-100 | numbers with the same bits are equal, so these laws determine the operations |
| Alignment.CeilPow2IsLeast | ring/ring.h:102-108 | the reference value is a power of two, at least x, and no larger than any other such power |
| Alignment.CombineMs1b | ring/ring.h:91-100 | the shift-or steps set exactly the bits below the leading one |
| Alignment.Align32Pow2 | ring/ring.h:102-108 | the shift-or form is the least power of two at least x on 1..2^31 and zero on every other 32-bit argument |
| Alignment.AlignToPowerOfTwoLoop | ring/test2.c:39-45 | for arguments up to 2^31 the doubling loop gives the least power of two, the first doubling not below the argument |
| Alignment.LoopEndsIff | ring/test2.c:39-45 | some doubling of the 32-bit word reaches the argument if and only if it is at most 2^31, so above that the loop never ends |
| Alignment.CompareForms | ring/test2.c:28-45 | where the loop ends, both forms agree if and only if the argument is not 0, and give the least power of two |
| RingCopy.WrittenIsSimpleLoop | ring/ring.c:164-194 | the closed form of a copy into the ring is the simple loop ring[(start + i) mod size] = obj[i] |
| RingCopy.WrittenAt | ring/ring.c:164-237 | every word lands in its own slot, and every other slot keeps its word |
| RingCopy.ReadBack | ring/ring.c:384-459 | reading back what was written gives the table again: the dequeue copy inverts the enqueue copy |
| RingCopy.EnqueueElems64 | ring/ring.c:164-194 | the loop unrolled by four, its fall-through tail and the wrap split refine the simple loop |
| RingCopy.EnqueueElems32 | ring/ring.c:197-237 | the same for the loop unrolled by eight |
| RingCopy.DequeueElems64 | ring/ring.c:384-415 | the unrolled copy out gives the slots in ring order and leaves the rest of the table alone |
| RingCopy.DequeueElems32 | ring/ring.c:418-459 | the same for the loop unrolled by eight |
| RingCopy.EnqueueElems | ring/ring.c:244-265 | both paths write num elements of the element size from the masked head on, and nothing else |
| RingCopy.DequeueElems | ring/ring.c:466-487 | both paths read num elements of the element size from the masked head on |
| RingCopy.ElementPlaced | ring/ring.c:256-263 | word w of element i lands in word w of slot (head + i) mod size, whatever the scale |
| RingCopy.ReadAppend | ring/ring.c:164-237 | a write right behind a stored window extends what reading the window gives |
| RingCopy.ReadSplit | ring/ring.c:384-459 | a window read in two parts gives the same words in the same order |
| RingCopy.ScaleMeaning | ring/ring.c:251-258 | words per element times bytes per word is the element size |
| Ring.MemsizeMeaning | ring/ring.c:12-35 | accepted if and only if esize is a multiple of 4 and count 0 or a power of two; the result holds header and slots and is cache-line aligned |
| Ring.SyncFlagsAlwaysKnown | ring/ring.c:38-69 | the error branches of `get_sync_type` are never taken |
| Ring.GetSyncType | ring/ring.c:38-69 | each side is single-threaded if and only if its flag is set |
| Ring.Ring.Init | ring/ring.c:72-106 | when it succeeds, by flag number and count, and the whole state it leaves: capacity the count with the exact-size flag (bit 2) and the count less one, the mask, without; size the least power of two above the count, or the count; single-threaded sides by bits 0 and 1; after a rejected count size 0; unchanged for flags of 32 and more |
| Ring.CreationCases | ring/ring.c:119-126 | which counts are accepted, by flag number, and that a good one gives a power-of-two size that is least above the count, or the count itself |
| Ring.CreateElem | ring/ring.c:109-141 | null exactly when an argument or the allocation fails; the ring is sound if and only if the count is a good one, then empty, with room for all slots and size, capacity and sync modes as count and flag bits ask |
| Ring.Create | ring/ring.c:145-149 | the same for pointers |
| Ring.FillFresh | ring/ring.c:90-103 | a fresh ring takes exactly count objects with the exact-size flag and count - 1 without it, and refuses the next |
| Ring.FlagBits | ring/ring.c:78-90 | whatever the other bits are, each flag mask leaves its own bit of the flag number, and flags are supported if and only if the number is below 32 |
| Ring.HeadTail.CompareAndSetHead | ring/ring.h:73-89 | stores and reports success if and only if the expected value was there |
| Ring.HeadTail.UpdateTail | ring/ring.c:153-161 | the tail becomes the new value |
| Ring.Ring.MoveProdHead | ring/ring.c:268-308 | reserves all, some or none of the request as the real free room and the behaviour say, across wraps of the counters |
| Ring.Ring.MoveConsHead | ring/ring.c:489-529 | the same with the real number of entries |
| Ring.Ring.DoEnqueueElem | ring/ring.c:311-332 | the contents grow at the end by exactly the granted elements; count and free space are right; a variable call that moves less than asked leaves the ring full, a fixed one moves nothing and found too little room |
| Ring.Ring.DoDequeueElem | ring/ring.c:533-555 | the oldest granted elements come out in order, the rest stays, the rest of the table is untouched; a variable call that moves less than asked leaves the ring empty, a fixed one moves nothing and found too few |
| Ring.Ring.EnqueueBulkElem | ring/ring.c:354-368 | all or nothing in either mode |
| Ring.Ring.DequeueBulkElem | ring/ring.c:575-591 | all or nothing in either mode |
| Ring.Ring.Enqueue | ring/ring.c:371-381 | 0 and appended if and only if there is a free slot, else `-ENOBUFS` and unchanged |
| Ring.Ring.Dequeue | ring/ring.c:595-604 | 0 and the oldest object if and only if not empty, else `-ENOENT` and unchanged |
| QueueSpec.GrantedIsMost | ring/ring.c:293-298 | the granted number is the largest that neither request nor room forbids, a fixed request being moved whole or not at all |
| QueueRun.RunOps | ring/ring.c:311-332 | any sequence of enqueues and dequeues, fixed or variable, single or multi, does and reports what a bounded queue does |
| QueueRun.FirstInFirstOut | ring/ring.c:533-555 | over any run of that queue, what came in is what went out followed by what is left |
| RingSteps.NextKeeps | ring/ring.c:268-332 | every step of every thread keeps the protocol invariant |
| RingSteps.ReachableInv | ring/ring.c:268-332 | every state of every schedule satisfies it |
| RingCalls.CallOrigin | ring/ring.c:278-306 | in every run of either machine a thread that is not idle executes the call it last began, with the request it began with, however often a lost race makes it start over |
| RingSafety.CountersInOrder | ring/ring.c:284-300 | cons.tail <= cons.head <= prod.tail <= prod.head <= cons.tail + capacity, always |
| RingSafety.ReservationsTile | ring/ring.c:300-305 | each position between tail and head belongs to exactly one thread's reservation, and no reservation reaches outside |
| RingSafety.SlotsExclusive | ring/ring.c:244-265 | no two words of reservations in flight, of producers or consumers, share a slot |
| RingSafety.FirstInFirstOut | ring/ring.c:311-332 | what consumers have published is word for word the oldest part of what producers have reserved |
| RingSafety.ReturnedWords | ring/ring.c:542-554 | a returned call is the one its thread began, moved the number granted to the request it began with, and its words are those logged at its position, for an enqueue the first of its own table |
| RingSafety.MovedWords | ring/ring.c:320-327 | in mid-copy a thread holds a prefix of the words at its position, a producer a prefix of its own table |
| RingSafety.DrainedIsComplete | ring/ring.c:549-554 | once consumers have caught up, everything that went in has come out |
| RingSolo.SoloCall | ring/ring.c:311-332 | a call of the machine that nobody interrupts returns, with the granted count, the simple copy loop done, and head and tail advanced by the count |
| RingSolo.SoloSlots | ring/ring.c:244-265 | the slots it leaves are those the unrolled copies of the ring object leave |
| RingTraces.RefusalJustified | ring/ring.c:278-306 | on unbounded counters, every call that returns with nothing moved is the one its thread began, and unless that asked for nothing it found too little really available for its request when it last loaded the opposite tail, even with a stale head and after lost races |
| RingTraces.CommitHasRoom | ring/ring.c:300-305 | whenever a commit succeeds the room it computed is still there |
| RingTraces.FailureMeansProgress | ring/ring.c:524-527 | a failed compare-and-set means another thread's reservation on that side succeeded since the load |
| RingProgress.OldestCanMove | ring/ring.c:153-161 | with anything unpublished, exactly one reservation starts at the tail, and its thread can go on |
| RingProgress.WorkFalls | ring/ring.c:153-161 | every instruction of a reservation holder lowers the measure unless it only polls |
| RingProgress.WorkNeverGrows | ring/ring.c:153-161 | nothing but a successful reservation raises it |
| RingProgress.DeadlockFree | ring/ring.c:153-161 | from every reachable state the holders alone can publish everything, and then all reserved words have been delivered |
| RingProgress.EffectiveBounded | ring/ring.c:153-161 | under any schedule without new reservations, instructions that do not only poll are bounded |
| RingProgress.FairDrains | ring/ring.c:153-161 | any schedule without new reservations that gives every holder a turn per round publishes everything within as many rounds as there is work |
| RingProgress.FairPublishes | ring/ring.c:153-161 | from every reachable state and however many new reservations arrive, under any schedule that gives every holder a turn per round a reservation is published within as many rounds as there is work in it and the older ones of its side |
| RingWords.StepRefines | ring/ring.c:284-305 | one 32-bit step is the low words of the unbounded step if and only if it is not a tail load whose room exceeds a word, nor a compare-and-set whose stale head differs by a multiple of 2^32 |
| RingWords.RunRefines | ring/ring.c:505-527 | the runs agree state by state if and only if every step of the unbounded run is such a step |
| RingWords.FreshRunRefines | ring/ring.c:284-305 | they agree on every schedule along which no loaded head goes stale by 2^32 - capacity |
| RingWords.WordsFirstInFirstOut | ring/ring.c:533-555 | along every schedule on which the runs agree, calls of the 32-bit machine return the logged words in order, for the requests they began with |
| RingWords.StaleCommit | ring/ring.c:304-305 | a stale 32-bit compare-and-set goes through if and only if the head has moved by a multiple of 2^32; the unbounded one never does |
| RingWords.WordsRefusalJustified | ring/ring.c:278-306 | along every schedule on which the runs agree, the same of every call that returns with nothing moved on the 32-bit machine |
| RingStale.RoomReached | ring/ring.c:284-290 | in any configuration with several threads on a side and for any number there is a run, right up to the tail load, in which the 32-bit machine computes that number plus the side's bias as a word; the load is right if and only if the sum fits |
| RingStale.RoomExceedsCapacity | ring/ring.c:284-290 | for a producer: the 32-bit free_entries is the capacity plus the number if and only if the number is below 2^32 - capacity |
| RingStale.RoomExceedsCapacityExample | ring/ring.c:284-290 | a 32-bit ring of capacity 1 in which a producer computes room 2 |
| RingStale.RoomBoundedIff | ring/ring.c:505-510 | free_entries (lines 284-290) and entries stay within the capacity, or within any larger bound below 2^32 - 1, if and only if the side is single-threaded or the capacity is 0, on unbounded counters and on the 32-bit runs that agree with them |
| RingStale.WrongRefusal | ring/ring.c:290-298 | for every number from 2^32 - capacity up to 2^32 - 1 a run whose words are right up to an empty ring, from which the 32-bit machine refuses a request and the unbounded one goes on to commit |
| RingOverrun.StaleOverrun | ring/ring.c:304-305 | in every ring with several producers and a positive capacity a run whose words are right up to a ring full of unread words, from which the 32-bit compare-and-set reserves twice the capacity and its copy replaces exactly the oldest 2 * capacity - size elements; the unbounded one is sent back |
| SizeClass.ClassRange | memory_manage/malloc_elem.c:189-223 | the exact range of sizes of each of the 13 lists |
| SizeClass.IndexMonotone | memory_manage/malloc_elem.c:203-223 | a larger size never has a lower list |
| SizeClass.StartIsHighestFit | memory_manage/malloc_elem.c:86-115 | `elem_start_pt` gives the highest aligned place with header and data inside, and none if and only if there is none |
| SizeClass.HolderInHigherClass | memory_manage/malloc_elem.c:189-202 | an element that can hold a request is on the request's list or a higher one |
| SizeClass.HigherClassHolds | memory_manage/malloc_elem.c:122-125 | an element above the list of the worst case can hold the request |
| SizeClass.RoomIffSomePlaceHasIt | memory_manage/malloc_elem.c:254-266 | the chosen place leaves a whole header if and only if some place does |
| SizeClass.ExactFitExample | memory_manage/malloc_elem.c:122-125 | a concrete element that can hold a request and has nothing left for its own header |
| SizeClass.ExactFitExample56 | memory_manage/malloc_elem.h:14-24 | the same with a header that is not padded to a cache line |
| SizeClass.RoundupIs | memory_manage/common.h:20-23 | rounding a request (lines 77-83 of `malloc_heap.c`) gives the next cache-line multiple if and only if the size is at most 2^64 - 64, otherwise 0 |
| Blocks.InsertIndexSplits | memory_manage/malloc_elem.c:58-69 | all blocks before the insertion place are at or below the address, all others above |
| Blocks.InsertIndexUnique | memory_manage/malloc_elem.c:58-69 | there is only one such place, so either scan finds the same neighbours |
| Blocks.InsertOrdered | memory_manage/malloc_elem.c:24-79 | inserting clear memory keeps address order without overlap |
| Blocks.AllocConserves | memory_manage/malloc_elem.c:133-150 | splitting conserves the total of all sizes |
| Blocks.FreeConserves | memory_manage/malloc_elem.c:274-283 | so do the merges of a free |
| Blocks.AllocOrdered | memory_manage/malloc_elem.c:254-266 | allocating keeps order and minimum sizes when the remainder keeps its header |
| Blocks.FreeOrdered | memory_manage/malloc_elem.c:286-319 | freeing keeps order and minimum sizes |
| Blocks.FreeCoalesced | memory_manage/malloc_elem.c:286-319 | a free leaves no two adjacent free blocks if there were none |
| Blocks.AllFreeIsOne | memory_manage/malloc_elem.c:286-319 | a gapless coalesced heap without busy blocks is one block |
| Blocks.FreeUndoesAlloc | memory_manage/malloc_elem.c:254-283 | freeing the block just allocated restores the sequence if and only if its right neighbour was not a mergeable free block |
| FreeLists.WithoutAt | memory_manage/malloc_elem.c:242-245 | removing an element between two stretches that do not have it leaves the two stretches, in order |
| FreeLists.UnlinkIndexed | memory_manage/malloc_elem.c:242-245 | taking an element off its list leaves all others on exactly the list of their size |
| FreeLists.PushIndexed | memory_manage/malloc_elem.c:229-236 | putting a free element at the head of the list for its size restores the agreement |
| Heap.Heap.FreeListInsert | memory_manage/malloc_elem.c:229-236 | the element is free and the first of the list its size selects, the rest of that list and all others as before; lists agree with sizes and states |
| Heap.Heap.FreeListRemove | memory_manage/malloc_elem.c:242-245 | the list with the element is cut around it, in the same order, and every other list is unchanged |
| Heap.Heap.Insert | memory_manage/malloc_elem.c:24-79 | sorted insertion with both links and both ends right; an ordered heap stays ordered, and the free lists of a valid one miss only the new element; a heap with inconsistent ends is left alone |
| Heap.Heap.InsertFree | memory_manage/malloc_elem.c:229-236 | inserting and listing clear memory keeps any heap valid, with the element at the head of its list |
| Heap.Heap.ScanForward | memory_manage/malloc_elem.c:60-63 | the forward scan ends at the two neighbours of the address |
| Heap.Heap.ScanBackward | memory_manage/malloc_elem.c:65-68 | the backward scan ends at the same two |
| Heap.Heap.SplitElem | memory_manage/malloc_elem.c:133-150 | from a header on, the list with the element cut in two and all links right; a split at the element itself makes it point to itself; in between only the size stored last |
| Heap.Heap.JoinElem | memory_manage/malloc_elem.c:274-283 | the list without the swallowed element, its size added |
| Heap.Heap.JoinAdjacentFree | memory_manage/malloc_elem.c:286-319 | merges with a free adjacent right neighbour and then left neighbour, and with nothing else |
| Heap.Heap.Alloc | memory_manage/malloc_elem.c:254-266 | the heap is intact if and only if the remainder keeps a header, and then the new list and free lists |
| Heap.Heap.CarveInPlace | memory_manage/malloc_elem.c:256-263 | what an exact fit does: size 0, next pointing to itself |
| Heap.Heap.Free | memory_manage/malloc_elem.c:327-345 | the invariant, the merged list, the free lists, the count, and zeroes in exactly the freed payload |
| Heap.Heap.Zero | memory_manage/malloc_elem.c:342 | exactly the given bytes become zero |
| MallocHeap.MallocHeapCreate | memory_manage/malloc_heap.h:24 | (body: `malloc_heap.c` 11-37) a heap of one free element of the region, valid if and only if a header fits, or null when memory runs out |
| MallocHeap.FindSuitable | memory_manage/malloc_heap.h:13-16 | (body: `malloc_heap.c` 47-64) the loops find the first holder in list order from the request's class on, and nothing if and only if no free element can hold the request |
| MallocHeap.FirstHolderMeans | memory_manage/malloc_heap.h:13-16 | that holder can hold the request and no element before it on the lists can |
| MallocHeap.AlignmentHonoured | memory_manage/common.h:20-23 | rounding a power-of-two alignment up to 2^31 keeps it one, and data aligned to the result is aligned as asked |
| MallocHeap.HeapAlloc | memory_manage/malloc_heap.h:25 | (body: `malloc_heap.c` 72-102) carves the first holder; null and unchanged if and only if size is 0 or nothing can hold the request; an aligned block with room, and the heap intact if and only if the first holder leaves a header |
| MallocHeap.ExactFitSpoils | memory_manage/malloc_elem.c:253-266 | a request whose rounded size and header fill the region of a created heap is served at the region's start, and the heap is not valid afterwards |
| MallocHeap.ExactFitHeap | memory_manage/malloc_elem.c:253-266 | the same on 4160 bytes at 4096 with a header of 64, asked for 4096 bytes |
| MallocHeap.HeapFree | memory_manage/malloc_heap.h:26 | (body: `malloc_heap.c` 104-113) nothing for null, otherwise a step of the run machine that frees that block |
| MallocHeap.AllocThenFree | memory_manage/malloc_elem.c:254-283 | on the objects: the same blocks if and only if no free right neighbour adjoins, then also the same list and members of every free list; always in a merged heap |
| MallocHeap.FreeCallIsStep | memory_manage/malloc_elem.c:327-345 | a free through the pointer of a live request is a step of a run |
| HeapSession.RunCalls | memory_manage/malloc_heap.h:24-26 | any sequence of allocations, frees and writes on a created heap, up to an allocation that would spoil it, is a run of the machine that ends in the state of the objects, with the pointers handed out and not freed; each call has its effect on it |
| HeapSession.ScriptTraced | memory_manage/malloc_heap.h:24-26 | call by call: a request that some block can hold makes a new pointer live, a refused one or one for 0 bytes changes nothing, releasing a live pointer makes it live no more, a store inside a live block lands |
| HeapRuns.NextKeeps | memory_manage/malloc_elem.c:253-345 | every allocation, free and write keeps the run invariant |
| HeapRuns.RunInv | memory_manage/malloc_elem.c:253-345 | every state of every run satisfies it |
| HeapRuns.LiveBlocksAreSafe | memory_manage/malloc_elem.c:254-266 | every live block is aligned, large enough, inside the region, and its data is in no header and in no other block, live or free |
| HeapRuns.UntouchedSurvives | memory_manage/malloc_elem.c:327-345 | whatever others do, a block its owner does not touch stays live with the same bytes |
| HeapRuns.AllFreedIsOneBlock | memory_manage/malloc_elem.c:286-319 | nothing is live if and only if the heap is the one free block it started as, whatever the order of the frees |
| HeapRuns.SpaceIsConserved | memory_manage/malloc_elem.c:133-150 | blocks always tile the region with no two free neighbours and constant total, and `alloc_count` counts the live blocks modulo 2^32 |

## Left out

- `lpm/`: the longest-prefix-match component shares no state with the ring or the heap.
- Main programs, dump and debug output, the timing code of `ring/test2.c`, and `rte_ring_free`, which frees nothing.
- Inline assembly, pauses, compiler reordering and hardware memory ordering.
- The RTS flags have no protocol of their own: `get_sync_type` ignores them, so they behave as plain multi-threaded
  mode.
- The pointer tricks of the list macros: a free list is a sequence, removal by element, insertion at the head.
- `remove_elem`, which nothing calls, and the fields `socket_id` and `name`.
- Headers are objects with an address, not bytes: when a remainder is shorter than a header, the two overlapping headers
  hold unknown values, and nothing is said of the heap but that it is not valid. `HeapRuns` lets header bytes change
  freely.
- HeapRuns.NextKeeps: a run has no step for an allocation whose remainder cannot keep its header, because the heap is
  not a heap afterwards; `HeapSession.RunCalls` stops before such a call. A run allows any suitable block.
- MallocHeap.HeapAlloc: alignment 0 and alignments whose rounded value is not a power of two, which the code accepts,
  are left out, as its masks then align to nothing in particular.
- MallocHeap.HeapFree: the element behind a data pointer is passed along instead of being found by subtracting the
  header length; freeing a pointer that is not live is excluded by the precondition.
- Ring.CreateElem: with unsupported flags nothing is said of the ring but that it is new, because the memory holds
  whatever the allocator left there.
- Ring.Create: the same.
- Ring.HeadTail.UpdateTail: never spins in the class, where no other thread runs; spinning is in the protocol machine.
- Ring.Ring.MoveProdHead: never has to retry in the class; losing the race and starting over is in the protocol machine.
- Ring.Ring.MoveConsHead: the same.
- Alignment.AlignToPowerOfTwoLoop: arguments above 2^31 are left to `Alignment.LoopEndsIff`, as the loop has no result.
- Alignment.CompareForms: the same.
