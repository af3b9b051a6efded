# RT-Thread kernel objects, drivers and tools: a verified model

This Dafny project models the parts of an RT-Thread 4.1.0 board package that are real
algorithms, and proves what they are for:

- the small-memory heap: a boundary-tag, first-fit allocator with two-sided coalescing, a
  lowest-free cursor, byte accounting and a realloc that shrinks in place or moves;
- the IPC objects: mutex with priority inheritance, event, mailbox and message queue, with the
  wait lists under them;
- the fixed-block memory pool with its intrusive free list;
- aligned allocation on top of the heap, and the bounded formatter behind `rt_snprintf`;
- the worst-case stack analysis over a call graph;
- the scatter/gather copies of the Ethernet driver, the PWM period arithmetic and the integer
  line drawing of the LCD code.

`dafny verify dfyconfig.toml` checks everything.

## How it is built

Code that changes things in place is a class or a method over arrays and fields, proved equal
to a specification function; the laws are lemmas about that function.  Threads appear as state
machines whose steps are the critical sections between `rt_hw_interrupt_disable` and
`rt_hw_interrupt_enable`; the lemmas named `AlwaysInv` and `NeverLost` speak about every state
of every run of such a machine, those named `WaitsOn` about threads that wait for ever.

| files | source |
|---|---|
| HeapLayout, HeapLaws, HeapMemory, SmallMem | mem.c: layouts as values, laws over runs, layouts in memory, the class |
| Aligned | kservice.c: aligned allocation |
| FormatSpec, FormatLaws, FormatMeaning, FormatReading, Printf | kservice.c: the text of a format, what it means, how formats are read, the buffer |
| WaitList, IpcList | wait lists as values; the rings of rtservice.h and `_ipc_list_suspend` |
| WaitProtocol | the suspend, resume and re-check loop shared by mailbox, queue and pool |
| MsgQueueModel, MsgQueueLaws, MsgQueueDelivery, MsgQueueWaiting, MsgQueue, MsgQueueRun | message queue: state machine, laws, end-to-end delivery, timeouts and whole calls, linked nodes, runs of the machine on the linked nodes |
| MailboxModel, Mailbox, MailboxRun | mailbox: state machine, ring, runs of the machine on the ring |
| MutexModel, MutexLaws, Mutex | mutex: state machine, what takes and releases mean, object |
| EventModel, EventBits, Event | event: state machine on sets of flags, words as such sets, object |
| MemPoolModel, MemPool | mempool.c: state machine, slots in memory |
| CallGraphModel, CallGraph | WCS.py: what a worst case is, the memoised walk |
| EthLayout, Eth, Pwm, Line, Arithmetic | drv_eth.c, drv_pwm.c, lcd.c |

Conventions: the heap is counted in 4-byte words (`RT_ALIGN_SIZE` is 4, a header is 3 words, the
smallest block 3 words), and 32-bit wrap-around of byte sizes is written out.  `rt_thread_suspend`,
`rt_thread_resume` and the thread timer are taken at their contracts: suspend puts the running
thread on a list, resume takes it off and stops its timer, a timeout takes a still suspended
thread off and sets its error.  A thread's place in a wait list is a parameter of the machines
(`k`), so they cover FIFO, priority order and the pool's insertion at the head; IpcList and
MutexModel fix it.

Where code and documentation disagree, or a property fails, the model follows the code and
states exactly when the property holds: `TinyArenaHangs`, `WordsCover`, `Alloc` (the block covers
the request), `Realloc` (NULL leaves the heap as it was), `InitInside`,
`RequestCovers`, `TerminatorInPool`, `TimeoutKeepsExact`, `InPlaceIff`, `OctalIff`, `ShownWholeIff`,
`EndsIff`, `ReadBackIff`, `TooShortIff`, `PrescalerFitsIff`.  Inputs that fail are in `WrappedAlloc`,
`WrappedRealloc`, `InitAcceptsNothing` and `BoostOutlivesWaiter`.

## Model

| member | source | states |
|---|---|---|
| HeapLaws.RunInv | rt-thread/src/mem.c:279-556 | After every run of legal alloc, realloc and free calls the blocks tile the arena from 0 to the end marker, each with a user word, and no two neighbours are free |
| HeapLaws.ApplyInv | rt-thread/src/mem.c:279-556 | Each call keeps that invariant, whichever branch it takes |
| HeapLaws.Conservation | rt-thread/src/mem.c:206-241 | Words in used blocks and words in free blocks always add up to the arena |
| HeapLaws.UsedAfterAlloc | rt-thread/src/mem.c:354-371 | What alloc adds to `used` is exactly the growth of the used blocks, split or not |
| HeapLaws.UsedAfterFree | rt-thread/src/mem.c:541-555 | What free subtracts is exactly the freed span, whatever coalesces |
| HeapLaws.UsedAfterShrink | rt-thread/src/mem.c:464-491 | The same for realloc's in-place shrink |
| HeapLaws.CursorSkipsNothing | rt-thread/src/mem.c:314-319 | The search from `lfree` finds the very block a scan from offset 0 finds |
| HeapLaws.FirstFit | rt-thread/src/mem.c:313-319 | An allocation finds nothing exactly when every free block is too small, and every free block in front of the one it takes is |
| HeapLaws.AllocServes | rt-thread/src/mem.c:320-352 | The block handed out has less than six words more than needed, and if the block found had six to spare, exactly what is needed with a free block of all the rest behind it; what is free shrinks by that and a header, else by the whole block |
| HeapLaws.ClampIsMaximum | rt-thread/src/mem.c:309-311 | A request takes the larger of its rounded size and three words |
| HeapLaws.PlugLowest | rt-thread/src/mem.c:125-163 | Coalescing never moves the lowest free block |
| HeapLaws.FreeLowest | rt-thread/src/mem.c:546-555 | Pulling the cursor down to the freed block makes it the lowest free block after coalescing |
| HeapLaws.FreeUndoesAlloc | rt-thread/src/mem.c:313-400 | Freeing the block just taken restores layout, cursor and accounting |
| HeapLaws.FreeCallUndoesAllocCall | rt-thread/src/mem.c:512-556 | The same for the calls, found by address |
| HeapLaws.FreeAllIsFresh | rt-thread/src/mem.c:512-556 | Freeing all live blocks in any order ends in one free block |
| HeapLaws.RunThenFreeAll | rt-thread/src/mem.c:279-556 | Any legal run, then freeing what is live in any order: one free block, nothing used, cursor at 0 |
| HeapLaws.AllocLive | rt-thread/src/mem.c:320-388 | An allocation adds one live block and keeps all others |
| HeapLaws.FreeLive | rt-thread/src/mem.c:512-556 | A free removes exactly the freed block from the live ones |
| HeapLaws.PeakIsMaximum | rt-thread/src/mem.c:354-375 | The recorded `max` was reached and never exceeded |
| HeapMemory.StoredUnique | rt-thread/src/mem.c:206-231 | The tags in memory determine the layout |
| HeapMemory.StoredSplit | rt-thread/src/mem.c:337-352 | The header writes of a split, the end marker's `prev` left alone, turn the tags of the old layout into those of the new one |
| HeapMemory.StoredMerge | rt-thread/src/mem.c:135-162 | The same for one join of plug_holes |
| HeapMemory.MoveKeepsPayload | rt-thread/src/mem.c:496-502 | Allocate, copy and free leave every other live block's words and carry the moved ones over |
| SmallMem.WordsCover | rt-thread/src/mem.c:300-300 | RT_ALIGN covers the request exactly when it does not wrap |
| SmallMem.Low32IsModulo | rt-thread/src/mem.c:300-300 | A 32-bit sum is the sum modulo 2^32 |
| SmallMem.WrappedAlloc | rt-thread/src/mem.c:300-311 | For 0xFFFF_FFFF bytes rt_smem_alloc hands out the first free block of the smallest size |
| SmallMem.WrappedRealloc | rt-thread/src/mem.c:432-443 | For 0xFFFF_FFFF bytes rt_smem_realloc frees the block it was given |
| SmallMem.InitRegionFits | rt-thread/src/mem.c:186-204 | A region is refused exactly when control block and two headers do not fit; otherwise the arena fills what is left between them |
| SmallMem.InitInside | rt-thread/src/mem.c:186-204 | The arena lies inside the region given exactly when the control block ends below 4 GiB |
| SmallMem.Init | rt-thread/src/mem.c:178-242 | rt_smem_init gives NULL exactly when the region is too small, else a fresh heap of the words that remain |
| SmallMem.SmallMem.constructor | rt-thread/src/mem.c:178-242 | A fresh heap: one free block, the used end marker, cursor at 0 |
| SmallMem.SmallMem.FindFit | rt-thread/src/mem.c:314-319 | The bounded loop over the tags finds the lowest block that fits, none exactly when none fits, and ends |
| SmallMem.SmallMem.Take | rt-thread/src/mem.c:320-388 | Split or whole, mark, account, advance the cursor: tags, `used`, `max` and `lfree` are those of the new layout, whose block AllocServes bounds |
| SmallMem.SmallMem.Alloc | rt-thread/src/mem.c:279-403 | rt_smem_alloc is first fit on the rounded size: NULL exactly when the size is zero, the rounded size is too large or every free block is too small; the block has less than six words to spare, or exactly what is needed with the rest free behind it; in an arena inside 32-bit memory it covers the request exactly for sizes up to 2^32 - 4, since the three larger ones round to 0; no live block's payload changes |
| SmallMem.SmallMem.PlugHoles | rt-thread/src/mem.c:125-163 | The in-place joins, cursor moves included, equal coalescing of the layout on both sides |
| SmallMem.SmallMem.FreeChecks | rt-thread/src/mem.c:531-538 | Every assertion rt_smem_free makes about a live block holds, the pointer strictly below the end marker included |
| SmallMem.SmallMem.Free | rt-thread/src/mem.c:512-556 | rt_smem_free gives the layout without the block, all invariants, and leaves every other payload |
| SmallMem.SmallMem.Shrink | rt-thread/src/mem.c:464-491 | The in-place shrink: cut, account, cursor, coalesce; the kept words stay |
| SmallMem.SmallMem.Move | rt-thread/src/mem.c:496-502 | The moving path: the smaller of both sizes is carried over; on NULL nothing has changed |
| SmallMem.SmallMem.Realloc | rt-thread/src/mem.c:418-503 | On success the first words up to the smaller size are kept in a block that covers the request; a live block keeps its pointer exactly when its size in words stays or is cut by more than six, and such a call never gives NULL; any other gives NULL exactly when every free block is too small; NULL for a live block and a non-zero size leaves heap and block as they were exactly for sizes up to 2^32 - 4, and frees the block for the three larger ones; other live blocks keep their words |
| SmallMem.PointerStays | rt-thread/src/mem.c:455-502 | The same of the layout: which calls keep the pointer, and which give none |
| SmallMem.TinyArenaHangs | rt-thread/src/mem.c:314-316 | With less than three user words the loop bound wraps and the search never ends: why Alloc asks for three |
| Aligned.RequestCovers | rt-thread/src/kservice.c:1637-1645 | The size asked of rt_malloc covers payload and slack exactly when no 32-bit sum wraps, and is then less than seven bytes more than their sum |
| Aligned.AlignUp | rt-thread/src/kservice.c:1650-1657 | The result is aligned, behind the heap pointer, and at most one alignment further |
| Aligned.MallocAlign | rt-thread/src/kservice.c:1629-1666 | The result is aligned; the saved pointer and all requested bytes lie inside the block allocated; NULL exactly when rt_malloc returns it; every other live block keeps its words |
| Aligned.FreeAlign | rt-thread/src/kservice.c:1675-1681 | Recovers the heap pointer from memory and frees exactly that block, leaving the words of all others |
| Aligned.RoundTrip | rt-thread/src/kservice.c:1629-1681 | Allocate, fill every requested word, free: layout, cursor and accounting are as before, and every live block has the words it had |
| IpcList.InsertSorted | rt-thread/src/ipc.c:134-160 | Insertion keeps the list sorted by priority and first come, first served among equals |
| IpcList.InsertBefore | rt-thread/include/rtservice.h:73-80 | The ring with the node inserted before another, before the head meaning at the end |
| IpcList.InsertAfter | rt-thread/include/rtservice.h:58-65 | The ring with the node inserted behind another |
| IpcList.Remove | rt-thread/include/rtservice.h:86-92 | The ring without the node, which becomes a ring of its own |
| IpcList.IsEmpty | rt-thread/include/rtservice.h:98-101 | True exactly when the head is the only node |
| IpcList.Len | rt-thread/include/rtservice.h:107-118 | The number of nodes besides the head, and the walk ends |
| IpcList.Suspend | rt-thread/src/ipc.c:121-168 | The loop puts the thread at the end (FIFO) or before the first less urgent waiter |
| WaitProtocol.NextInv | rt-thread/src/ipc.c:2773-2831 | Every critical section keeps the wait list equal to the suspended threads, and loses no wake-up |
| WaitProtocol.NeverLost | rt-thread/src/mempool.c:335-461 | In every run with stealing, timeouts and resets: while someone sleeps, available units never exceed the resumed threads yet to look |
| WaitProtocol.SleeperHasAgent | rt-thread/src/mempool.c:434-461 | A thread sleeps beside an available unit only if another is on its way that will find one |
| WaitProtocol.EnterAnswers | rt-thread/src/ipc.c:2773-2831 | A call that finds nothing gives up exactly with timeout 0 and otherwise sleeps, with that timeout |
| WaitProtocol.RecheckAnswers | rt-thread/src/ipc.c:2833-2841 | A resumed thread that finds nothing: one that waits for ever sleeps again with the same timeout; one with a finite timeout gives up exactly when the ticks it slept reach it, and otherwise sleeps for the difference |
| WaitProtocol.ForEver | rt-thread/src/ipc.c:3078-3147 | In every run: a thread that waits for ever still does, with the timeout it came with, unless it got a unit or the object was reset |
| WaitProtocol.NeverOvertaken | rt-thread/src/ipc.c:3176-3185 | In every run: as long as two threads wait, the one in front stays in front, and the other is not resumed |
| MsgQueueLaws.PartitionStep | rt-thread/src/ipc.c:2737-3252 | Free list, queue and nodes in flight partition the nodes through every step |
| MsgQueueLaws.DataStep | rt-thread/src/ipc.c:2843-3168 | Queued and held nodes keep the bytes of the message they stand for, the unlocked copies included |
| MsgQueueLaws.ReplayStep | rt-thread/src/ipc.c:2854-3162 | The queue refines a sequence: send appends and urgent prepends at the second section, receive pops at its first |
| MsgQueueLaws.SidesMove | rt-thread/src/ipc.c:2773-3189 | Every step is a step of the wait protocol, or none, for receivers and for senders |
| MsgQueueLaws.AlwaysInv | rt-thread/src/ipc.c:2737-3252 | All of it in every state of every run of the machine of critical sections; MsgQueueRun adds entry, head, tail and the links |
| MsgQueueLaws.EntryCannotOverflow | rt-thread/src/ipc.c:2869-2878 | With a node to link, the queue is not full: the overflow return is unreachable |
| MsgQueueLaws.NothingLeaks | rt-thread/src/ipc.c:3224-3260 | With no thread between its sections, free and queued nodes are all nodes |
| MsgQueueLaws.NoSleeperForgotten | rt-thread/src/ipc.c:2773-3189 | A receiver sleeps beside a message, or a sender beside a free node, only if one already resumed is about to look |
| MsgQueueDelivery.ReceiverGetsMessage | rt-thread/src/ipc.c:3078-3162 | A receiver that finds a message, on its first pass or resumed, pops the front one |
| MsgQueueDelivery.Delivery | rt-thread/src/ipc.c:2737-3168 | In every run, what a receiver has copied out are the bytes, up to the smaller of the sizes, of a message a send was called with earlier and that went through the queue |
| MsgQueueWaiting.RecvAnswers | rt-thread/src/ipc.c:3078-3137 | On an empty queue a receive gives up exactly with timeout 0, changing nothing; otherwise the thread is on the list |
| MsgQueueWaiting.SendAnswers | rt-thread/src/ipc.c:2758-2831 | A send is refused exactly when its message is larger than a slot; else it takes a free node; when there is none it gives up exactly with timeout 0 and otherwise sleeps |
| MsgQueueWaiting.UrgentAnswers | rt-thread/src/ipc.c:2959-2982 | An urgent send never sleeps: it takes a free node, or is refused |
| MsgQueueWaiting.ResumedRecvAnswers | rt-thread/src/ipc.c:3139-3147 | A resumed receiver that finds nothing sleeps as before if it waits for ever, gives up exactly when the ticks it slept reach its timeout, and otherwise sleeps for the difference |
| MsgQueueWaiting.ResumedSendAnswers | rt-thread/src/ipc.c:2833-2841 | The same for a sender that finds no free node |
| MsgQueueWaiting.WaitsOn | rt-thread/src/ipc.c:2770-2841 | In every run: a call that waits for ever goes on, with the message or size it was made with, until it gets a node or a message, or the queue is reset |
| MsgQueueWaiting.SendAppends | rt-thread/src/ipc.c:2843-2896 | The three steps of a send without anyone in between put its message behind all others, and resume the first receiver with what it asked for |
| MsgQueueWaiting.RecvTakesFront | rt-thread/src/ipc.c:3149-3189 | Those of a receive take the front message off and give its node back |
| MsgQueueWaiting.RecvCopiesFront | rt-thread/src/ipc.c:3149-3168 | What it copies out is that message, as far as the buffer goes |
| MsgQueue.MessageQueue.constructor | rt-thread/src/ipc.c:2474-2525 | rt_mq_init: all nodes on the free list, nothing queued |
| MsgQueue.MessageQueue.TakeFree | rt-thread/src/ipc.c:2843-2844 | First section of a send: the first free node goes in flight, or the queue is full |
| MsgQueue.MessageQueue.CopyIn | rt-thread/src/ipc.c:2849-2852 | The unlocked copy touches that node only |
| MsgQueue.MessageQueue.Link | rt-thread/src/ipc.c:2854-2896 | Second section: the node is linked at the tail (send) or head (urgent), head, tail and entry agree with the sequence, the first waiter is resumed |
| MsgQueue.MessageQueue.PopHead | rt-thread/src/ipc.c:3149-3162 | First section of a receive: the head node goes in flight |
| MsgQueue.MessageQueue.PutFree | rt-thread/src/ipc.c:3171-3189 | Second section: the node heads the free list, a sender is resumed |
| MsgQueue.MessageQueue.Reset | rt-thread/src/ipc.c:3224-3260 | All waiters resumed, queued nodes back on the free list in order, nodes in flight untouched |
| MsgQueueRun.Perform | rt-thread/src/ipc.c:2737-3252 | Every enabled step of the machine is one method of the linked queue, whose preconditions then hold, and takes a queue that represents the state to one that represents the next state |
| MsgQueueRun.InitRepresents | rt-thread/src/ipc.c:2474-2525 | The queue of rt_mq_init represents the initial state |
| MsgQueueRun.Play | rt-thread/src/ipc.c:2737-3252 | So after every run, whatever the interleaving, the linked queue represents the machine's state |
| MsgQueueRun.Consistent | rt-thread/src/ipc.c:2854-2896 | Representing a reachable state means: entry is the number of queued messages, head and tail are the ends of the chain, the chain runs through the queued nodes in order and each holds its message |
| Mailbox.SlotIsModulo | rt-thread/src/ipc.c:2081-2090 | The wrap by comparison is the position modulo the ring size |
| Mailbox.Ring.OffsetsAgree | rt-thread/src/ipc.c:2329-2340 | `in_offset` is (`out_offset` + `entry`) mod `size` in every valid state |
| Mailbox.Ring.TrySend | rt-thread/src/ipc.c:2012-2109 | Appends to the deque unless full; the overflow error is unreachable |
| Mailbox.Ring.Urgent | rt-thread/src/ipc.c:2159-2210 | Prepends across the wrap unless full |
| Mailbox.Ring.TryRecv | rt-thread/src/ipc.c:2257-2355 | Pops the front of the deque, or reports empty |
| Mailbox.Ring.Reset | rt-thread/src/ipc.c:2381-2413 | Empty deque, all waiters resumed |
| MailboxModel.InvStep | rt-thread/src/ipc.c:1986-2413 | Every step keeps the bound and loses no wake-up on either side |
| MailboxModel.AlwaysInv | rt-thread/src/ipc.c:1986-2413 | So in every state of every run |
| MailboxModel.NoSleeperForgotten | rt-thread/src/ipc.c:2012-2109 | Nobody sleeps on a box holding mail, or with room, unless one already resumed is about to look |
| MailboxModel.RecvAnswers | rt-thread/src/ipc.c:2268-2310 | On an empty mailbox a receive gives up exactly with timeout 0, changing nothing; otherwise the thread sleeps |
| MailboxModel.SendAnswers | rt-thread/src/ipc.c:2022-2062 | The same for a send on a full one |
| MailboxModel.ResumedRecvAnswers | rt-thread/src/ipc.c:2312-2325 | A resumed receiver that finds nothing sleeps as before if it waits for ever, gives up exactly when its ticks are over, and otherwise sleeps for the difference |
| MailboxModel.ResumedSendAnswers | rt-thread/src/ipc.c:2064-2077 | The same for a sender that finds no room |
| MailboxModel.WaitsOn | rt-thread/src/ipc.c:2012-2077 | In every run: a call that waits for ever goes on, with the value it was made with, until it has sent it, got mail, or the mailbox is reset |
| MailboxRun.Perform | rt-thread/src/ipc.c:1986-2413 | Every enabled step of the machine is a method of the ring, and takes a ring that represents the state to one that represents the next state |
| MailboxRun.Play | rt-thread/src/ipc.c:1986-2413 | So after every run, whatever the interleaving, the ring represents the machine's state |
| MutexModel.NextInv | rt-thread/src/ipc.c:909-1192 | value, owner, hold and waiters agree, the list is sorted, the owner is no less urgent than any waiter, and only it runs boosted: kept by every step |
| MutexModel.AlwaysInv | rt-thread/src/ipc.c:909-1192 | So in every state of every run |
| MutexModel.EnqueuePlace | rt-thread/src/ipc.c:134-160 | A newcomer stands behind everyone at least as urgent, before all others |
| MutexModel.FirstCome | rt-thread/src/ipc.c:134-160 | In every run: who comes while t waits, and is no more urgent, stands behind t for as long as both wait |
| MutexModel.FirstServed | rt-thread/src/ipc.c:1136-1183 | In every run: such a newcomer does not get the mutex before t has left the list |
| MutexModel.FullOnlyWhenDeep | rt-thread/src/ipc.c:937-973 | The error return is taken only by the 256th recursive take |
| MutexModel.GiveRestores | rt-thread/src/ipc.c:1123-1183 | After the outermost release the priority is the thread's own; the new owner is the most urgent waiter |
| MutexModel.ReleaseRestores | rt-thread/src/ipc.c:1128-1134 | In every run an outermost release gives back the priority held at the take |
| MutexModel.NoInversion | rt-thread/src/ipc.c:992-1004 | In every run, while a thread waits the owner is at least as urgent, also right after a hand-over |
| MutexModel.TimeoutKeepsExact | rt-thread/src/ipc.c:1006-1031 | A timeout leaves the owner too urgent exactly when the owner is boosted, the leaver heads the list, and there is no second waiter or it is strictly less urgent |
| MutexModel.BoostOutlivesWaiter | rt-thread/src/ipc.c:1006-1031 | A run in which the boost outlives the waiter that caused it |
| MutexLaws.ReleaseUndoesRetake | rt-thread/src/ipc.c:937-950 | For an owner with less than 255 holds a release after a take gives the very state before |
| MutexLaws.ReleaseUndoesTake | rt-thread/src/ipc.c:952-973 | So for the first take of a free mutex |
| MutexLaws.HoldCounts | rt-thread/src/ipc.c:937-1183 | In every run `hold` is the owner's successful takes, or the hand-over and the takes since, minus its releases |
| MutexLaws.LosesAtMatchingRelease | rt-thread/src/ipc.c:1123-1183 | In every run the owner loses the mutex exactly at the release that matches its first take |
| MutexLaws.TakeAnswers | rt-thread/src/ipc.c:952-1031 | A free mutex is taken at once; one that another thread owns is refused exactly with timeout 0, changing nothing, and otherwise waited for: on the list with that timeout, the owner as urgent as the more urgent of the two, nothing else changed |
| MutexLaws.WaitsOn | rt-thread/src/ipc.c:976-1042 | In every run: a thread that waits for ever is on the list until it owns the mutex |
| MutexLaws.ExactWithoutTimeouts | rt-thread/src/ipc.c:992-1004 | In every run in which nobody times out, the owner runs exactly at its own priority or at that of a thread that waits |
| Mutex.MutexObject.SuspendOnList | rt-thread/src/ipc.c:138-160 | The search loop inserts where the model does |
| Mutex.MutexObject.Take | rt-thread/src/ipc.c:909-1042 | rt_mutex_take is the model's take, result and state |
| Mutex.MutexObject.Release | rt-thread/src/ipc.c:1085-1192 | rt_mutex_release is the model's release |
| EventModel.SendIsRecvEach | rt-thread/src/ipc.c:1455-1514 | A send adds its flags to the pending ones; from there its effect on the set and on the resumed threads is that of each waiter, in list order, doing an immediate receive |
| EventModel.SendLeaves | rt-thread/src/ipc.c:1455-1514 | After a send a flag is set exactly when it was pending or is sent and no thread resumed with CLEAR wanted it |
| EventModel.SendAlone | rt-thread/src/ipc.c:1447-1461 | With nobody waiting exactly the flags of both are set; sending none changes nothing |
| EventModel.SendResumes | rt-thread/src/ipc.c:1464-1514 | A send resumes every waiter that the pending and the sent flags together satisfy, unless one in front of it, resumed with CLEAR, wants a flag it wants; and it resumes no other |
| EventModel.WhatItTakes | rt-thread/src/ipc.c:1592-1616 | A satisfied thread receives all the flags it wants by AND, some by OR, none it does not want; one that is not misses a flag by AND, all of them by OR |
| EventModel.RecvAnswers | rt-thread/src/ipc.c:1623-1642 | A receive that is not satisfied fails at once exactly with timeout 0, changing nothing; otherwise the thread is on the list with what it asked for, and the set is as before |
| EventModel.RecvTakes | rt-thread/src/ipc.c:1609-1622 | One that is satisfied suspends nobody, and takes away what it wants exactly with CLEAR |
| EventModel.ExpireTakesOne | rt-thread/src/ipc.c:1644-1664 | A timeout takes one thread off the list and nothing else |
| EventModel.WaitsOn | rt-thread/src/ipc.c:1435-1720 | In every run: a thread that waits for ever is on the list until a send whose flags and the pending ones satisfy it resumes it, or a reset |
| EventModel.KeptUnsatisfied | rt-thread/src/ipc.c:1464-1513 | Nobody left on the list is satisfied by what the send leaves |
| EventModel.ResumedWaited | rt-thread/src/ipc.c:1484-1513 | A resumed thread waited and receives only flags it asked for: all of them by AND, at least one by OR |
| EventModel.LetAllSplits | rt-thread/src/ipc.c:1464-1513 | Each waiter is either kept or resumed, once, and both parts stand in list order |
| EventModel.AlwaysInv | rt-thread/src/ipc.c:1435-1720 | In every run no suspended thread's AND/OR condition is satisfied between operations |
| EventBits.And | rt-thread/src/ipc.c:1473-1482 | `&` of two words has the common flags |
| EventBits.Minus | rt-thread/src/ipc.c:1503-1504 | `& ~` has those of the first that are not in the second |
| EventBits.Or | rt-thread/src/ipc.c:1456-1456 | `|` has the flags of both |
| EventBits.CoversIff | rt-thread/src/ipc.c:1473-1473 | Masking a word with another gives the word itself exactly when the other has all its flags |
| EventBits.SameFlags | rt-thread/src/ipc.c:1456-1504 | The flags determine the word, so equal sets are equal words |
| Event.SendIsRecv | rt-thread/src/ipc.c:1471-1507 | Condition, received bits and clearing of a send's branches are those of an immediate receive |
| Event.EventObject.Send | rt-thread/src/ipc.c:1435-1528 | rt_event_send on the words is the model's send on their flags; its invalid-option return is unreachable |
| Event.EventObject.Recv | rt-thread/src/ipc.c:1560-1650 | Receives exactly when satisfied, times out on zero, else suspends |
| Event.EventObject.Reset | rt-thread/src/ipc.c:1698-1720 | No bits, everyone resumed |
| MemPool.SlotsApart | rt-thread/src/mempool.c:108-127 | Slots are in bounds and disjoint |
| MemPool.TerminatorInPool | rt-thread/src/mempool.c:130-131 | The end of the free list is written inside the pool exactly when the pool holds a slot |
| MemPool.Pool.constructor | rt-thread/src/mempool.c:89-136 | All slots free, chained in address order |
| MemPool.Pool.TryAlloc | rt-thread/src/mempool.c:335-406 | Takes the first free slot and stamps the pool into its header; NULL exactly when none is free; chain and allocated slots stay a partition, the counter its length |
| MemPool.Pool.Free | rt-thread/src/mempool.c:415-465 | The header leads back to this pool; the slot heads the chain; the first waiter is resumed |
| MemPool.Pool.Store | rt-thread/src/mempool.c:396-406 | Writing all of an allocated block leaves the pool intact |
| MemPoolModel.InvStep | rt-thread/src/mempool.c:335-465 | Every step keeps free and allocated slots a partition and loses no wake-up |
| MemPoolModel.AlwaysInv | rt-thread/src/mempool.c:335-465 | So in every state of every run |
| MemPoolModel.NoSleeperForgotten | rt-thread/src/mempool.c:434-465 | In every run nobody sleeps beside a free slot unless a thread already resumed is about to look and will get one |
| MemPoolModel.AllocAnswers | rt-thread/src/mempool.c:335-372 | Without a free slot a call gives up exactly with timeout 0, changing nothing; otherwise it sleeps in front of all others |
| MemPoolModel.RecheckAnswers | rt-thread/src/mempool.c:374-386 | A resumed thread that finds nothing sleeps as before if it waits for ever, gives up exactly when its ticks are over, and otherwise sleeps for the difference |
| MemPoolModel.WaitsOn | rt-thread/src/mempool.c:335-386 | In every run: a call that waits for ever goes on until a slot is handed out |
| MemPoolModel.AllocOn | rt-thread/src/mempool.c:335-406 | One pass of rt_mp_alloc on the slots in memory is the machine's step, suspension included |
| CallGraphModel.FindFxn | rt-thread/tools/WCS.py:84-99 | A global function hides local ones; None exactly when neither exists |
| CallGraphModel.BadForAReason | rt-thread/tools/WCS.py:259-281 | A function reaches a pointer call or a cycle only by a pointer call of its own or through a callee that does |
| CallGraphModel.CycleIsBad | rt-thread/tools/WCS.py:264-267 | A function met among its own callers is on a call cycle |
| CallGraphModel.ExactStep | rt-thread/tools/WCS.py:269-290 | Own stack plus the callees' maximum is the maximum over all call chains |
| CallGraphModel.ExactUnique | rt-thread/tools/WCS.py:292-299 | No order of visiting the functions changes a result |
| CallGraphModel.OpenStep | rt-thread/tools/WCS.py:286-288 | Unresolved names below a function are its own and those below its callees |
| CallGraphModel.ManualSound | rt-thread/tools/WCS.py:182-200 | A manual entry, known before the walk starts, is right about itself |
| CallGraph.Analysis.ResolveCalls | rt-thread/tools/WCS.py:224-233 | `r_calls` are exactly the callees, the rest is unresolved |
| CallGraph.Analysis.CalcWcs | rt-thread/tools/WCS.py:246-290 | The memoised walk ends, and every entry it finishes is right |
| CallGraph.FinishSound | rt-thread/tools/WCS.py:269-290 | Numeric callees make the caller's number exact, and its unresolved set complete |
| CallGraph.Analysis.CalcAllWcs | rt-thread/tools/WCS.py:292-299 | Every function: unbounded if and only if it reaches a pointer call or a cycle, else the maximum over all call chains with every reachable unresolved name |
| EthLayout.SlotClosed | libraries/HAL_Drivers/drv_eth.c:215-242 | Byte k of a frame is k/B buffers along the chain, at offset k%B |
| EthLayout.SlotsDistinct | libraries/HAL_Drivers/drv_eth.c:215-242 | Bytes less than a ring apart never share a place |
| EthLayout.InPlaceIff | libraries/HAL_Drivers/drv_eth.c:200-243 | Frames of a length arrive in place, whatever their bytes, if and only if the length fits the ring |
| EthLayout.RoundTrip | libraries/HAL_Drivers/drv_eth.c:318-345 | With buffers of the same size, receiving gives what was sent for any two segmentations and any two numbers of buffers |
| Eth.DescIs | libraries/HAL_Drivers/drv_eth.c:220-221 | Following the descriptor chain is counting modulo the ring |
| Eth.LastDescIs | libraries/HAL_Drivers/drv_eth.c:215-237 | A frame of w bytes reaches descriptor (w - 1) / B |
| Eth.Ring.Transmit | libraries/HAL_Drivers/drv_eth.c:184-243 | The copy loops lay the frame down for any segmentation; they fail exactly when a needed descriptor is the DMA's, with everything in front of that buffer copied, and never change an owned buffer |
| Eth.Ring.Receive | libraries/HAL_Drivers/drv_eth.c:318-345 | The pbufs, in their given lengths, hold what the ring holds by the same layout |
| Eth.Ring.Release | libraries/HAL_Drivers/drv_eth.c:347-355 | Exactly the received descriptors go back to the DMA |
| Eth.Ring.Loopback | libraries/HAL_Drivers/drv_eth.c:184-345 | Transmit then receive is the identity on frames that fit |
| FormatLaws.DigitsReadBack | rt-thread/src/kservice.c:633-663 | A numeral read back in its radix is the number |
| FormatLaws.OctalIff | rt-thread/src/kservice.c:641-660 | `%o` shows octal exactly below 8, since `divide` counts every base but 10 in sixteens |
| FormatLaws.WordFits | rt-thread/src/kservice.c:697-749 | A word never has more digits than the 16-character buffer holds |
| FormatLaws.FieldFilled | rt-thread/src/kservice.c:751-838 | A number fills its field or exceeds it by need; a precision of zero drops the digits |
| FormatLaws.ShownWholeIff | rt-thread/src/kservice.c:993-996 | `%s` shows a string whole exactly when neither width nor a positive precision is shorter |
| FormatMeaning.NumberMeans | rt-thread/src/kservice.c:1022-1100 | A number conversion shows the number its letter and qualifier mean (the word or with `h` its low half, signed for d and i): "-" exactly for a negative one, else for d and i "+" with that flag, or a blank with only the blank flag, and its numeral in base 10 for d, i and u and 16 for the others, large digits exactly for X; zeros up to the precision, and the field filled with blanks behind by "-", zeros behind the sign by "0", blanks in front otherwise |
| FormatMeaning.NumeralUnique | rt-thread/src/kservice.c:742-749 | A number has exactly one numeral in a radix and case |
| FormatMeaning.ScansBack | rt-thread/src/kservice.c:682-841 | Read back in the letter's radix, the text of a number conversion is the number meant, whatever its flags and width, unless the precision is zero |
| FormatMeaning.CharMeans | rt-thread/src/kservice.c:966-987 | `%c` shows the character of the argument's low byte, blanks in front of it or behind it up to the width |
| FormatMeaning.StringMeans | rt-thread/src/kservice.c:989-1019 | `%s` shows the string up to its NUL, cut to the least of width and positive precision, padded; `(NULL)` for a null pointer |
| FormatMeaning.PointerMeans | rt-thread/src/kservice.c:1021-1037 | `%p` shows the word in small hexadecimal digits, unsigned, in a field of eight padded with zeros if no width is given |
| FormatMeaning.OthersMean | rt-thread/src/kservice.c:1038-1073 | `%%` gives one percent sign, an unknown letter itself behind one, and neither takes an argument |
| FormatReading.ReadsAsWritten | rt-thread/src/kservice.c:885-959 | A directive spelled out in a format is read as written: each flag exactly if its character occurs, width and precision as the numbers their digits are, `*` from the arguments in turn, a negative width meaning left-justified |
| FormatReading.RendersDirective | rt-thread/src/kservice.c:868-1100 | Behind a directive the format goes on, with the arguments it has not used |
| FormatReading.RendersText | rt-thread/src/kservice.c:868-876 | Text without a percent sign is copied |
| FormatReading.PrintsNumber | rt-thread/src/kservice.c:868-1100 | A format of a percent sign and a letter prints the number meant: a minus sign exactly for a negative one, then its numeral in the radix and case of the letter |
| Printf.Divide | rt-thread/src/kservice.c:633-663 | One digit off, as unsigned |
| Printf.DigitsInto | rt-thread/src/kservice.c:742-749 | The digits backwards, inside the buffer |
| Printf.PrintNumber | rt-thread/src/kservice.c:682-841 | print_number writes the number in its field, only below `end`, and advances by its full length |
| Printf.Directive | rt-thread/src/kservice.c:896-959 | Flags, width, precision and qualifier are read as the format says |
| Printf.PutString | rt-thread/src/kservice.c:989-1019 | `%s` capped and padded |
| Printf.Convert | rt-thread/src/kservice.c:964-1100 | The switch on the conversion letter writes the text that FormatMeaning describes |
| Printf.Vsnprintf | rt-thread/src/kservice.c:856-1116 | For every format, arguments and size: returns the unlimited length, stores the first size - 1 characters and NUL, touches nothing else |
| Printf.SizeOnlyCuts | rt-thread/src/kservice.c:1103-1110 | Two buffer sizes show the same characters up to the smaller one's NUL |
| Printf.ReadsBack | rt-thread/src/kservice.c:1103-1110 | Read as a C string the buffer holds the text cut to size - 1 |
| Line.DrawLine | applications/lcd.c:936-1001 | The loop draws the closed form: an axis of length d has moved ceil(t*d/distance) - 1 cells after t steps |
| Line.TrackStep | applications/lcd.c:986-999 | One step of the error term keeps it equal to what was added and not moved |
| Line.EndsIff | applications/lcd.c:983-983 | The 16-bit loop ends exactly for distances up to 65533 |
| Line.EndPoints | applications/lcd.c:936-1001 | The line starts at the first point and ends at the second |
| Line.InBox | applications/lcd.c:983-1000 | Every point lies in the box of the two |
| Line.Connected | applications/lcd.c:983-1000 | Consecutive points touch; the longer axis moves one cell a step |
| Line.CloseToLine | applications/lcd.c:983-1000 | A drawn point is less than a cell off the ideal line |
| Pwm.Timer.Set | libraries/HAL_Drivers/drv_pwm.c:228-287 | Period and prescaler fit; reload at least 2; the compare value never exceeds the reload |
| Pwm.Timer.Get | libraries/HAL_Drivers/drv_pwm.c:182-226 | The registers in nanoseconds, in 32-bit products |
| Pwm.PeriodFits | libraries/HAL_Drivers/drv_pwm.c:260-262 | The prescaler brings every period below 65535 ticks |
| Pwm.PrescalerFitsIff | libraries/HAL_Drivers/drv_pwm.c:261-263 | The 16-bit prescaler register holds its value exactly below 65535 * 65536 ticks |
| Pwm.ReadBackIff | libraries/HAL_Drivers/drv_pwm.c:222-223 | A value reads back unwrapped exactly when ticks * psc * 1000 fits 32 bits |
| Pwm.ReadBackClose | libraries/HAL_Drivers/drv_pwm.c:211-281 | Without clamp and overflow the read-back period is at most the request and less than 1000 * psc / MHz + 1 ns short |
| Pwm.TooShortIff | libraries/HAL_Drivers/drv_pwm.c:265-268 | Clamped to three ticks it is at most the request exactly when the request is three ticks to the nanosecond |
| Pwm.FullDuty | libraries/HAL_Drivers/drv_pwm.c:271-279 | A pulse of the period's length or more is a full duty cycle |
| Pwm.PulseMonotone | libraries/HAL_Drivers/drv_pwm.c:271-279 | A longer pulse in nanoseconds never gives fewer ticks or a smaller compare value, while its ticks fit 32 bits |
| Pwm.PulseReadBackClose | libraries/HAL_Drivers/drv_pwm.c:211-281 | A pulse whose ticks lie between the two limits is kept: without overflow what is read back is at most the request and less than 1000 * psc / MHz + 1 ns short |

## Left out

- The scheduler, thread and timer modules: resume, suspend and timeout enter at their contracts.
- The semaphore: its hand-off is the mutex's without ownership and inheritance.
- Detach, delete and create of kernel objects, hooks, object registry, memtrace and memcheck commands.
- Several mutexes held at once, and a waiter whose priority changes while it waits: the code keeps one original priority per mutex and never re-sorts.
- Aligned.MallocAlign: the masks with `align - 1` are modulo a power of two; requests whose size sums wrap 32 bits are excluded, `RequestCovers` says which.
- MemPool.Pool.constructor: needs room for one slot; for a smaller region rt_mp_init writes its terminator outside the pool, as `TerminatorInPool` says.
- SmallMem.Init: needs the control block to end below 4 GiB; `InitInside` says what happens otherwise.
- SmallMem.SmallMem.Alloc: needs an arena of at least three user words, since the search never ends in a smaller one.
- Line.DrawLine: needs a distance of at most 65533, since the loop never ends beyond it.
- Printf.Vsnprintf: a size that wraps the address space (`rt_vsprintf`), and C's undefined overflow of widths and precisions beyond 31 bits.
- Printf: `RT_PRINTF_LONGLONG` and `RT_PRINTF_SPECIAL` are off in this configuration.
- Eth: HAL_ETH_TransmitFrame, the status flags of the DMA and a DMA that clears its own bit during a copy; frame lengths beyond 32 bits.
- Pwm: which timer is on which bus; the clock enters as a number.
- `circle` and the other drawing code of lcd.c, lcd_ex.c, serial DMA indices, delays, EEPROM, application threads.
- The parsing of object, dump and stack files in WCS.py: the call graph enters as a map.
