# Kalisto kernel: a Dafny model

Kalisto is a small teaching kernel for MIPS. This project models six of its parts and proves
what they are for:

- **Red-black tree** (`RedBlackShape.dfy`, `RedBlackTree.dfy`): nodes with parent links in the
  heap, in-place rotations, both rebalancing loops, deletion by substitution, walking and
  searching. The ghost value of a tree is its shape; a place in it is a path (a zipper), and
  the child link pointer of the source is the end of such a path.
- **Heap allocator** (`PhysicalFrames.dfy`, `HeapLayout.dfy`, `HeapAllocator.dfy`): headers and
  footers as words in an array of memory, first fit over the list of heaps, splitting, merging
  in both directions, heaps that come from and go back to the frame allocator. The frame
  allocator is a contract: it may refuse, and hands out only frames that nobody has.
- **Threads, scheduler, timers** (`ThreadSpec.dfy`, `ThreadSafety.dfy`, `ThreadEffects.dfy`, `ThreadRuns.dfy`,
  `ThreadFairness.dfy`, `LinkedQueue.dfy`, `KernelThreads.dfy`, `KernelRuns.dfy`): one processor
  as a transition system whose steps are the regions with interrupts disabled and the timer
  interrupt. The class `Kernel` performs each step in place, with the run queue and the list of
  timers as linked lists through the thread and timer structures, and is proved to do what the
  transition system says of sequences; what each step does is also said of the fields themselves.
  The theorems are about every run from boot on, and the class performs every such run, so they
  hold of its variables and lists. A function that gives up the processor in the middle is two
  methods, and the place where a thread goes on is part of its state.
- **Virtual memory and TLB** (`VirtualMap.dfy`, `TlbCoherence.dfy`, `TranslationBuffer.dfy`,
  `VirtualMemory.dfy`): the array of areas of each address space, a 48-entry buffer with its
  registers and the instructions TLBP, TLBR, TLBWI and TLBWR, the two exception handlers, and
  the switch of the address space. What an access of a thread reaches is proved to be what the
  history of mapping and unmapping says, whatever the buffer holds.
- **Lists and the sorted area list** (`LinkedRing.dfy`, `AreaCounts.dfy`, `AreaList.dfy`): the
  intrusive circular lists of the kernel and of its tests, and on top of the latter the test
  suite's list of areas with its incrementally kept counters.
- **Number formatter** (`NumberText.dfy`, `NumberFormat.dfy`): the text of a number with base,
  sign, prefix, precision and padding, written into a bounded buffer, and reading it back.

`Basics.dfy` holds optional values, the error codes, and what several parts need of sequences
and powers. The pure files define the values and
the theorems about them; the files with classes hold the imperative code, whose contracts
refer to those values. `dafny verify dfyconfig.toml` checks everything.

Where the code and its comments differ, the model follows the code: in the rebalancing after a
deletion the variable called `inner` holds the nephew on the far side (kernel/adt/rbtree.c:485); the
comment of kernel/mm/vmm.c counts 254 address spaces, while the code gives out the identifiers
0 to 254 before it reaches the one that `tlb_init` uses for unused entries; `match_nth_neigh`
also counts an area that ends at the rear bumper, which the counter does not, and this is
harmless because that pair is the last one.

## Model

| member | source | states |
|---|---|---|
| RedBlackTree.Tree.Insert | kernel/adt/rbtree.c:615-632 | A valid tree stays valid (root black, no red child of a red node, equal black counts, consistent links) and its in-order sequence gains exactly the new node, right before or after the node with the empty link; at most two rotations, and no more rounds than the height |
| RedBlackTree.Tree.RebalanceInsert | kernel/adt/rbtree.c:251-372 | From one red node that may have a red parent to a red-black tree with the same in-order sequence; at most two rotations |
| RedBlackTree.Tree.InsertRound | kernel/adt/rbtree.c:267-363 | One round keeps the rest of the tree sound and moves the gap up, or removes it; after rotations nothing is left to do |
| RedBlackTree.Tree.RotateTwice | kernel/adt/rbtree.c:308-362 | Black uncle: the node and its grandparent end below the parent, for both sides and both kinds |
| RedBlackTree.Tree.Delete | kernel/adt/rbtree.c:646-754 | A valid tree stays valid and its in-order sequence is the old one without exactly that node; at most three rotations, and no more rounds than the height |
| RedBlackTree.Tree.RebalanceDelete | kernel/adt/rbtree.c:392-554 | From a subtree that is one black node short to a red-black tree with the same in-order sequence; the two assertions of the loop never fail |
| RedBlackTree.Tree.DeleteRound | kernel/adt/rbtree.c:407-542 | One round lifts the gap by a recolouring, or closes it with at most three rotations in all |
| RedBlackTree.Tree.FindSibling | kernel/adt/rbtree.c:411-422 | The sibling exists, and a red one has a black parent and two black children |
| RedBlackTree.Tree.RotateSibling | kernel/adt/rbtree.c:424-439 | After the rotation and the exchange of colours the links are those of the shape with a black sibling below a red parent |
| RedBlackTree.Tree.CloseGap | kernel/adt/rbtree.c:476-540 | A red nephew: at most two rotations, neither nephew assertion fails, and the links and colours are those of the closed shape |
| RedBlackTree.Tree.Substitute | kernel/adt/rbtree.c:697-737 | A node with two children gives its place, colour and links to its successor; what is left to repair is where the successor has been |
| RedBlackTree.Tree.Replace | kernel/adt/rbtree.c:574-594 | The new node has the colour, the children and the parent of the old one, and they link back to it; without a new node the place is empty and both subtrees are trees of their own |
| RedBlackTree.Tree.MoveChildren | kernel/adt/rbtree.c:90-108 | Both subtrees hang below the new node, or below none, unchanged inside |
| RedBlackTree.Tree.MoveParent | kernel/adt/rbtree.c:40-75 | The parent link and the child or root link above change together; the rest of the path is untouched |
| RedBlackTree.Tree.RotateLeft | kernel/adt/rbtree.c:135-158 | All links around the pivot are those of the rotated shape |
| RedBlackTree.Tree.RotateRight | kernel/adt/rbtree.c:181-204 | The mirror image |
| RedBlackTree.Tree.Next | kernel/adt/rbtree.h:268-294 | The node right after this one in the in-order sequence, or null at its end |
| RedBlackTree.Tree.Prev | kernel/adt/rbtree.h:304-330 | The node right before this one, or null |
| RedBlackTree.Tree.Walk | kernel/adt/rbtree.h:235-294 | The walk with first and next ends at null and has visited the in-order sequence, every node once |
| RedBlackTree.Tree.WalkBack | kernel/adt/rbtree.h:252-330 | The walk with last and prev ends at null and has visited the reverse |
| RedBlackTree.First | kernel/adt/rbtree.h:235-241 | The first node of the in-order sequence of a subtree |
| RedBlackTree.Last | kernel/adt/rbtree.h:252-258 | The last node |
| RedBlackTree.Find | kernel/adt/rbtree.h:421-441 | Finds a matching node if and only if there is one, for any compare function that agrees with the order, and inspects at most 2*log2(n+1) nodes |
| RedBlackShape.HeightBound | kernel/adt/rbtree.c:240-243 | A red-black tree of n nodes has height at most 2*log2(n+1) |
| RedBlackShape.AcceptsIff | kernel/adt/rbtree.c:251-372 | What a place of a tree demands of a subtree is exactly that the whole is red-black |
| RedBlackShape.RedUncle | kernel/adt/rbtree.c:287-306 | Recolouring lifts the conflict by two levels and keeps black counts |
| RedBlackShape.BlackUncle | kernel/adt/rbtree.c:308-363 | One or two rotations with recolouring leave no conflict |
| RedBlackShape.RedSiblingKeeps | kernel/adt/rbtree.c:424-439 | Rotating a red sibling away keeps the shortage where it is |
| RedBlackShape.LoweredKeeps | kernel/adt/rbtree.c:446-474 | Making a black sibling red moves the shortage to the parent |
| RedBlackShape.ClosedIsRedBlack | kernel/adt/rbtree.c:476-540 | The shape after the last rotation is red-black |
| RedBlackShape.SiblingExists | kernel/adt/rbtree.c:407-422 | A place that is one black node short has a sibling |
| RedBlackShape.FollowsPrecedes | kernel/adt/rbtree.h:268-330 | Next and prev undo each other |
| PhysicalFrames.FrameAllocator.Alloc | kernel/mm/malloc.c:239-251 | What the callers rely on: it may refuse; otherwise an aligned range that overlaps no live one |
| PhysicalFrames.FrameAllocator.Free | kernel/mm/malloc.c:436-442 | What the callers rely on: it succeeds exactly on ranges that have been handed out |
| HeapAllocator.Allocator.Malloc | kernel/mm/malloc.c:284-357 | Takes the first block that fits in list and address order, a new heap only when none fits, and gives NULL exactly when none fits and the frame allocator refuses; the block is split exactly when another one fits behind it, which is free then, so that it has at most 51 bytes more than the request; the payload is aligned, large enough, held by nobody else, and no held payload changes |
| HeapAllocator.Allocator.MallocHeap | kernel/mm/malloc.c:215-274 | The request fits in the new heap, whose first block is for it; the rest is one free block exactly when another one fits there; nothing else in memory changes |
| HeapAllocator.Allocator.MallocIn | kernel/mm/malloc.c:309-340 | The scan of one heap meets only intact blocks and takes the first that fits |
| HeapAllocator.Allocator.BlockCheck | kernel/mm/malloc.c:137-158 | True exactly when the block is in its heap, both magic values are there, and header and footer agree |
| HeapLayout.BlocksAreIntact | kernel/mm/malloc.c:137-158 | Its assertions hold of every block of every heap, so that no check in `malloc` and `free` ever fails |
| HeapAllocator.Allocator.BlockInit | kernel/mm/malloc.c:173-189 | Header and footer describe the block, and the payload keeps its contents |
| HeapAllocator.Allocator.Free | kernel/mm/malloc.c:385-446 | Exactly this block is no longer held; it and the free blocks right before and after it are one free block; the heap goes back to the frame allocator exactly when all its other blocks are free; no other payload changes |
| HeapAllocator.Allocator.FreeAll | kernel/mm/malloc.c:385-446 | Freeing all held blocks in any order empties the list of heaps and returns exactly the frames that were obtained |
| HeapAllocator.Allocator.ClientWrite | kernel/mm/malloc.c:100-106 | A write inside a held payload keeps every heap intact and every other payload |
| HeapLayout.RealSizeExact | kernel/mm/malloc.c:302-303 | Up to HEAP_BLOCK_SIZE_MAX the size arithmetic in 32 bits is the arithmetic of integers |
| HeapLayout.HeapFramesExact | kernel/mm/malloc.c:221-237 | So is that of the number of frames, and the request fits in them |
| HeapLayout.TakeTiles | kernel/mm/malloc.c:324-332 | Splitting keeps the heap tiled without gaps |
| HeapLayout.TakeMerged | kernel/mm/malloc.c:324-332 | Splitting leaves no two free blocks side by side, and no heap that is one free block |
| HeapLayout.TakenExact | kernel/mm/malloc.c:324-332 | The size of the block that is taken, and the free block behind it |
| HeapLayout.ReleaseMerged | kernel/mm/malloc.c:401-426 | Neither does merging in both directions |
| HeapLayout.ReleaseExact | kernel/mm/malloc.c:401-443 | The extent of the free block after a release, with all other blocks as they were; a heap is one free block exactly when its other blocks were free |
| HeapLayout.HeldApart | kernel/mm/malloc.c:302-335 | Held blocks are disjoint, also across heaps |
| HeapLayout.HeapsAreHeld | kernel/mm/malloc.c:432-443 | There is a heap exactly while a block is held |
| LinkedRing.List.Append | kernel/adt/list.h:207-217 | The links go forwards and backwards through the old items and then the new one |
| LinkedRing.List.Prepend | kernel/adt/list.h:186-196 | The same, with the new item first |
| LinkedRing.List.Remove | kernel/adt/list.h:226-236 | An item leaves its list, or nothing changes when it is in none; afterwards it is not connected |
| LinkedRing.List.Pop | kernel/adt/list.h:248-259 | The first item, or null exactly on the empty list |
| LinkedRing.List.Rotate | kernel/adt/list.h:269-287 | The first item becomes the last |
| LinkedRing.List.Foreach | kernel/adt/list.h:79-83 | Visits every item once, in order, and ends |
| LinkedRing.List.IsEmpty | kernel/adt/list.h:170-175 | True exactly when there are no items |
| LinkedRing.Insert | kernel/tests/include/tst_list.h:88-96 | The new ring is the old one with the link between the two consecutive ones |
| LinkedRing.Bypass | kernel/tests/include/tst_list.h:110-114 | The new ring is the old one without any of the links between the two |
| LinkedRing.Delete | kernel/tests/include/tst_list.h:198-205 | The entry leaves the ring and is a ring of its own |
| LinkedRing.GetNth | kernel/tests/include/tst_list.h:371-392 | The entry with that number, or null exactly when there is none |
| LinkedQueue.Queue.Init | kernel/time/timer.c:162 | A structure that is in no list has a link that is not connected; the list keeps its order |
| LinkedQueue.Queue.Append | kernel/sched/sched.c:62-68 | The link inside the structure is the last one of the ring, and the order is the old one with the structure at its end |
| LinkedQueue.Queue.Remove | kernel/sched/sched.c:75-81 | The structure leaves the order wherever it is, and nothing changes when it is in no list |
| LinkedQueue.Queue.Rotate | kernel/sched/sched.c:116-119 | Gives the structure of the first link, which becomes the last |
| LinkedQueue.Queue.Advance | kernel/time/timer.c:139-144 | A loop over the list meets the structures in order |
| LinkedQueue.Queue.Shows | kernel/time/timer.c:139-144 | The loop ends exactly after the last structure, and each link leads to its structure |
| KernelThreads.Kernel.constructor | kernel/main.c:107-140 | The state when the first thread begins, with the timer thread and the idle thread; it satisfies the invariant |
| KernelThreads.Kernel.ThreadSwitch | kernel/proc/thread.c:540-583 | The next thread runs and is current, the old one is ready if it was running and keeps its state otherwise; no other field of any thread, no queue and no timer changes |
| KernelThreads.Kernel.Reschedule | kernel/sched/sched.c:111-125 | Nothing happens on an empty run queue; otherwise its first thread goes to the end and runs, with the effect of the switch and no other |
| KernelThreads.Kernel.SchedTimer | kernel/sched/sched.c:89-105 | A timer interrupt counts one jiffy, wakes the timer thread if a pending timer has expired and it sleeps, and schedules when the quantum is used up; it does nothing else, and keeps the invariant |
| KernelThreads.Kernel.FindExpired | kernel/time/timer.c:77-82 | Walking the links finds the first pending timer that has expired, or none |
| KernelThreads.Kernel.TimersRun | kernel/time/timer.c:137-145 | The timer thread is woken exactly when a pending timer has expired |
| KernelThreads.Kernel.TimerScan | kernel/time/timer.c:70-91 | Takes the first expired timer of the list off it and marks it running, or finds none |
| KernelThreads.Kernel.TimerHandled | kernel/time/timer.c:97-102 | After the handler, which has woken the thread if the timer is that of a thread, the timer is not running; whether it is pending again is kept |
| KernelThreads.Kernel.TimerThreadSuspend | kernel/time/timer.c:103-106 | With no expired timer the timer thread sleeps out of the queue and another one runs |
| KernelThreads.Kernel.TimerInitJiffies | kernel/time/timer.c:159-168 | The timer has the timeout that is given and is not running; the invariant is kept |
| KernelThreads.Kernel.TimerStart | kernel/time/timer.c:178-186 | The timer is the last pending one, and its expiration is the current time plus its timeout |
| KernelThreads.Kernel.TimerDestroy | kernel/time/timer.c:198-217 | The timer is off the list; the call returns at once exactly when the handler does not run, and then the timer is neither pending nor running; otherwise the thread gives way |
| KernelThreads.Kernel.TimerDestroyAgain | kernel/time/timer.c:212-214 | The same when it returns after waiting, also when the handler has restarted the timer |
| KernelThreads.Kernel.ThreadCreate | kernel/proc/thread.c:72-163 | The new thread is ready, at the end of the queue, with no joiner; without memory nothing changes |
| KernelThreads.Kernel.ThreadYield | kernel/proc/thread.c:169-172 | One call of the scheduler: the current thread is ready and stays in the queue, and the first thread of the queue goes to its end and runs |
| KernelThreads.Kernel.ThreadSuspend | kernel/proc/thread.c:194-206 | The thread sleeps out of the queue and another one runs |
| KernelThreads.Kernel.ThreadWakeup | kernel/proc/thread.c:214-225 | Afterwards the thread is in the run queue unless it has finished: a sleeping one is ready at its end, and nothing changes for any other; the invariant is kept |
| KernelThreads.Kernel.ThreadSleep | kernel/proc/thread.c:249-270 | The thread sleeps out of the queue, with its own timer pending and set to expire after the timeout |
| KernelThreads.Kernel.ThreadAwake | kernel/proc/thread.c:272-283 | The thread's timer is destroyed before it goes on |
| KernelThreads.Kernel.ThreadFinish | kernel/proc/thread.c:431-458 | The thread ends with its value, a waiting joiner is ready at the end of the queue, and the call never returns |
| KernelThreads.Kernel.ThreadJoin | kernel/proc/thread.c:495-529 | EINVAL exactly for the current thread and for one with a joiner; a finished thread delivers its value at once; exactly in the remaining case the caller becomes its joiner and sleeps out of the queue |
| KernelThreads.Kernel.ThreadJoinAgain | kernel/proc/thread.c:515-524 | The joiner that was suspended gets the value of the thread it has waited for |
| KernelRuns.Perform | kernel/proc/thread.c:72-583 | Whatever step is possible, the function of the kernel that it stands for leads to the state that the transition system says |
| KernelRuns.Run | kernel/main.c:107-140 | The variables and linked lists after any run from boot are those of its last state, so that what is proved of all runs holds of the code |
| ThreadEffects.StepDoes | kernel/proc/thread.c:142-583 | What each step does to the threads, the queue, the timers and the history, said of the fields themselves; nothing else changes |
| ThreadEffects.OnlyNext | kernel/proc/thread.c:142-583 | No other state is what a step leads to |
| ThreadSafety.ExpiredFirst | kernel/time/timer.c:77-82 | The timer that is found has expired, and none before it in the list has |
| ThreadRuns.StepInv | kernel/proc/thread.c:142-583 | Every step, of any thread or of the timer interrupt, keeps the invariant |
| ThreadRuns.Continues | kernel/proc/thread.c:540-583 | A thread that is switched to inside a kernel function can go on there, and a finished one is never switched to |
| ThreadRuns.RunInv | kernel/main.c:107-140 | The invariant holds in every state of every run from boot |
| ThreadRuns.RunQueueExact | kernel/sched/sched.c:62-81 | In every state of every run the queue holds exactly the ready and running threads, once each, is not empty, and one thread is running: the current one |
| ThreadRuns.JoinsOnce | kernel/proc/thread.c:340-358 | At most one join of a thread returns EOK in a run |
| ThreadRuns.JoinAfterFinish | kernel/proc/thread.c:495-529 | A join returns EOK only after the thread has finished, with the value it finished with |
| ThreadRuns.JoinerWaits | kernel/proc/thread.c:509-516 | In every run, a caller of `thread_join` that has to wait does not run again before the other thread has called `thread_finish` |
| ThreadRuns.StepLog | kernel/proc/thread.c:470-479 | A step removes a thread exactly when it is a join that returns EOK, and then the thread that is joined; events are never lost, and only `thread_finish` records an end |
| ThreadRuns.DestroyedOnce | kernel/proc/thread.c:470-479 | In no run is a thread destroyed twice |
| ThreadRuns.DestroyedIsInactive | kernel/time/timer.c:198-217 | When destroying a timer returns, it is neither pending nor running |
| ThreadRuns.StaysQuiet | kernel/time/timer.c:59-109 | From then on, unless it is started again, the timer does not fire and nobody writes it |
| ThreadRuns.OneFiringPerStart | kernel/time/timer.c:77-95 | In every run, between two firings of a timer it has been started again: a handler runs at most once for each start |
| ThreadRuns.FiringIsStarted | kernel/time/timer.c:178-186 | Before its first firing a timer has been started, too |
| ThreadRuns.FiresAfterTimeout | kernel/time/timer.c:178-186 | In every run, more jiffies than the timeout pass between the start of a timer, also by `thread_sleep`, and its firing |
| ThreadRuns.TimeoutKept | kernel/time/timer.c:159-168 | The timeout of a timer is the one that it was last initialized with |
| ThreadRuns.FiresAreLogged | kernel/time/timer.c:77-95 | A handler never runs while jiffies is at most the expiration, and the history records exactly the firings |
| ThreadRuns.FiresAreStarted | kernel/time/timer.c:84-100 | In every reachable state the running flag is set exactly while the handler runs, and the counters of firings and starts agree |
| ThreadRuns.SleeperIsThere | kernel/proc/thread.c:234-237 | The handler that wakes a sleeping thread never meets one that is gone, joining or finished |
| ThreadRuns.NoSleeperForgotten | kernel/proc/thread.c:234-283 | In every state of every run, a thread in `thread_sleep` is in the run queue, or its own timer is pending, or the handler of that timer is running |
| ThreadRuns.HandlerWakes | kernel/proc/thread.c:234-237 | That handler can always wake its thread and then return |
| ThreadRuns.TickWakes | kernel/time/timer.c:137-145 | After each timer interrupt the timer thread can run if any pending timer has expired |
| ThreadFairness.BoundedWaiting | kernel/sched/sched.c:111-125 | A thread at place k of the queue that stays in it runs after at most k+1 calls of schedule, whatever else happens in between |
| ThreadFairness.OnlyCallsSwitch | kernel/sched/sched.c:111-125 | No step switches to another thread without a call of schedule |
| ThreadFairness.CallsAreCounted | kernel/sched/sched.c:111-125 | The calls of schedule in a part of a run are its steps that call it, each counted once |
| VirtualMemory.Memory.VmaMap | kernel/mm/vmm.c:79-163 | EINVAL exactly for unaligned arguments, ENOMEM exactly when there is nothing to place above, no slot or no frames; otherwise exactly the pages of the area are added to the page map, with frames that nobody had |
| VirtualMemory.Memory.VmaUnmap | kernel/mm/vmm.c:177-214 | EOK exactly when an area begins at the page; its pages leave the page map, its frames go back, and no valid translation of it remains in the buffer |
| VirtualMemory.Memory.FlushPages | kernel/mm/vmm.c:204-205 | No page of the area is translated any more, the translations of all other pairs of pages stay, and the buffer stays coherent |
| VirtualMemory.Memory.VmaCheckUser | kernel/mm/vmm.c:229-257 | For every range: an accepted one translates at all its addresses if and only if it does not wrap around, or the whole address space is mapped |
| VirtualMemory.Memory.VmmCreate | kernel/mm/vmm.c:270-293 | A new address space with empty slots of its own, whose identifier no entry of the buffer has |
| VirtualMemory.Memory.VmmMappingFind | kernel/mm/vmm.c:309-337 | The translation that the history of mapping and unmapping gives, with the offset kept, or EINVAL |
| VirtualMemory.Vmm.MappingFind | kernel/mm/vmm.c:309-337 | For any slots, also with areas that overlap: the frame of the page in the first slot that holds it, with the offset kept, or EINVAL |
| VirtualMemory.Vmm.CheckUser | kernel/mm/vmm.c:229-257 | True exactly when one area holds the page of the first address and that of the address after the last |
| VirtualMemory.Vmm.AutoVpn | kernel/mm/vmm.c:115-121 | The largest end of an area that begins below page 0x40000 |
| VirtualMemory.Memory.SwitchTo | kernel/head.S:514-522 | The buffer stays coherent for the new address space without being flushed |
| VirtualMemory.Memory.TlbRefill | kernel/mm/tlb.c:322-342 | The page is translated as the map says, or the thread is finished exactly when it is not mapped; the buffer stays coherent |
| VirtualMemory.Memory.TlbInvalid | kernel/mm/tlb.c:282-312 | The same, without a second entry for the pair of pages; when an entry matches, every page that was translated still is |
| VirtualMemory.Memory.Access | kernel/mm/tlb.c:282-342 | Whatever the buffer holds, an access reaches exactly the physical address of the page map, after at most one exception |
| TranslationBuffer.Tlb.constructor | kernel/mm/tlb.c:124-157 | Whatever was there, the cleared buffer is coherent |
| TranslationBuffer.Tlb.StoreIndexed | kernel/mm/tlb.c:168-189 | In the indexed entry the half for the page is valid and the other half stays; no other entry changes |
| TranslationBuffer.Tlb.StoreRandom | kernel/mm/tlb.c:200-224 | One arbitrary entry translates the page and not its neighbour; no other entry changes |
| TranslationBuffer.Tlb.TlbFlush | kernel/mm/tlb.c:237-272 | What matches the pair of pages becomes invalid, all else and the EntryHi register stay |
| TranslationBuffer.Tlb.Read | kernel/mm/tlb.c:36-46 | TLBR overwrites EntryHi, both EntryLo registers and PageMask |
| TranslationBuffer.Tlb.Probe | kernel/mm/tlb.c:58-74 | TLBP finds the matching entry or sets the P bit, when at most one entry matches |
| TlbCoherence.Sound | kernel/mm/tlb.c:282-342 | Every valid translation of a coherent buffer is that of the page map, from one entry only |
| TlbCoherence.StoreRandom | kernel/mm/tlb.c:200-224 | Replacing any entry when none matches keeps coherence |
| TlbCoherence.StoreIndexed | kernel/mm/tlb.c:168-189 | Replacing one half of the matching entry keeps coherence, and every page that was translated still is |
| TlbCoherence.Flushed | kernel/mm/tlb.c:237-272 | Flushing leaves no translation of the page, adds none, and keeps those of all other pairs of pages |
| TlbCoherence.Shrink | kernel/mm/vmm.c:201-208 | Pages may leave the map exactly when the buffer does not translate them |
| TlbCoherence.Grow | kernel/mm/vmm.c:146-155 | Mapping and new address spaces need no flush |
| VirtualMap.Mapping | kernel/mm/vmm.c:136-157 | Filling a slot with a disjoint area adds exactly its pages to the page map |
| VirtualMap.PagesAdded | kernel/mm/vmm.c:136-157 | Pages of the new area get consecutive frames, and all others keep theirs |
| VirtualMap.Unmapping | kernel/mm/vmm.c:192-209 | Clearing a slot removes exactly the pages of its area |
| VirtualMap.FoundIsMapped | kernel/mm/vmm.c:324-333 | When the areas do not overlap, the first slot that holds a page is what the page map says |
| VirtualMap.OverlapHides | kernel/mm/vmm.c:136-157 | For any slots and any new area, also one that overlaps others: every page is found at its frame, new ones and those mapped before, if and only if no page of the new area was mapped before |
| VirtualMap.AutoRoom | kernel/mm/vmm.c:106-126 | An automatically placed area is disjoint from all others if and only if it ends before every area that begins at page 0x40000 or above |
| VirtualMap.AutoBelowLimit | kernel/mm/vmm.c:106-126 | In particular when it ends at or below page 0x40000 |
| VirtualMap.FramesApart | kernel/mm/vmm.c:146-153 | Two mapped pages, of one address space or of two, never share a frame |
| VirtualMap.CoveredTranslates | kernel/mm/vmm.c:229-257 | What the check accepts translates at every address |
| VirtualMap.CheckIsExact | kernel/mm/vmm.c:229-257 | A range that begins in an area and does not wrap is accepted if and only if the address after its last byte is below the end of that area |
| VirtualMap.CheckRefusesWholeArea | kernel/mm/vmm.c:229-257 | So the check is not complete: for every area, the range of all of it translates and is refused |
| VirtualMap.WrappedCheck | kernel/mm/vmm.c:231-232 | An accepted range that wraps translates everywhere if and only if every page of the address space is mapped |
| VirtualMap.WrapIsAccepted | kernel/mm/vmm.c:231-232 | An example, with one area in the array of a map: a wrapping range that is accepted and does not translate |
| AreaList.AreaList.constructor | kernel/tests/vmm/shared/tst_area_list.c:112-130 | One hole, no areas, the two bumpers around the segment; the counter of holes is right if and only if the segment is not empty |
| AreaList.AreaList.Add | kernel/tests/vmm/shared/tst_area_list.c:254-309 | EINVAL exactly when the interval overlaps some area or leaves the segment, although only two cells are compared; otherwise it is added in order and the counters are those of a recount |
| AreaList.AreaList.Del | kernel/tests/vmm/shared/tst_area_list.c:318-362 | Exactly the nth area leaves, with the counters of a recount |
| AreaList.AreaList.Resize | kernel/tests/vmm/shared/tst_area_list.c:373-415 | EINVAL exactly when the new extent overlaps another area or leaves the segment |
| AreaList.AreaList.Split | kernel/tests/vmm/shared/tst_area_list.c:426-459 | The area becomes two with the same pages, with the counters of a recount |
| AreaList.AreaList.Merge | kernel/tests/vmm/shared/tst_area_list.c:582-608 | Two touching areas become one with the same pages |
| AreaList.AreaList.Remap | kernel/tests/vmm/shared/tst_area_list.c:470-574 | EINVAL exactly when the target overlaps some other area or leaves the segment; the area's own old place does not count; otherwise the area is at its new place in order |
| AreaList.AreaList.FindPlace | kernel/tests/vmm/shared/tst_area_list.c:497-519 | The two areas around the target are those of the list without the area itself |
| AreaList.AreaList.FindAfter | kernel/tests/vmm/shared/tst_area_list.c:49-53 | The first area beyond a page, or null exactly when the page is not before the end of the segment |
| AreaList.AreaList.GetArea | kernel/tests/vmm/shared/tst_area_list.c:178-190 | The nth area in address order |
| AreaList.AreaList.GetHole | kernel/tests/vmm/shared/tst_area_list.c:198-213 | The nth hole exists for every n below the hole counter, and has n holes before it |
| AreaList.AreaList.GetNeigh | kernel/tests/vmm/shared/tst_area_list.c:221-237 | The nth pair of touching areas exists for every n below the neighbour counter, and has n such pairs before it |
| AreaCounts.ClashIsLocal | kernel/tests/vmm/shared/tst_area_list.c:267-271 | Comparing with the two neighbours decides about all areas and the segment |
| AreaCounts.GrowthIsLocal | kernel/tests/vmm/shared/tst_area_list.c:385-388 | For a resized area the next cell alone decides |
| AreaCounts.SearchSkips | kernel/tests/vmm/shared/tst_area_list.c:497-513 | Skipping the area itself is searching the list without it |
| AreaCounts.CountsAreExact | kernel/tests/include/tst_area_list.h:49-64 | The recount is the number of maximal runs of free pages, and the number of pages where one area ends and another begins |
| AreaCounts.AddTally | kernel/tests/vmm/shared/tst_area_list.c:290-306 | How many holes and borders a new area adds |
| AreaCounts.CutTally | kernel/tests/vmm/shared/tst_area_list.c:341-358 | How many holes and borders a removed area takes away |
| AreaCounts.SizeTally | kernel/tests/vmm/shared/tst_area_list.c:397-411 | How a new size changes the counts |
| AreaCounts.SplitTally | kernel/tests/vmm/shared/tst_area_list.c:446-455 | Splitting adds one border and no hole |
| AreaCounts.MergeTally | kernel/tests/vmm/shared/tst_area_list.c:597-604 | Merging removes one border and no hole |
| NumberFormat.Number | kernel/lib/print.c:80-215 | Writes the formatted text and a null character as far as they are inside the buffer, and nothing before it or beyond its end; the text has the padding, the sign, the prefix, the zeros and the digits that the flags ask for, in the right case; the returned place is behind the whole text; panics exactly for bases outside 2 to 16 |
| NumberFormat.Prepare | kernel/lib/print.c:107-133 | Sign and magnitude of the word, also for the smallest negative number, and what is left of the width |
| NumberFormat.Convert | kernel/lib/print.c:135-140 | The digits from the last one on, in the case that is asked for, without a zero too many; 32 characters are enough for every word and base |
| NumberFormat.Output | kernel/lib/print.c:146-212 | The order of padding, sign, prefix, zeros and digits for every combination of flags |
| NumberText.RoundTrip | kernel/lib/print.c:80-215 | For every word, base, width, precision and flags the text reads back as the number that was meant |
| NumberText.FormattedExact | kernel/lib/print.c:80-215 | The text is the one text made of padding, sign, prefix, zeros and numeral, with the length and the filling that the flags ask for |
| NumberText.DigitsExact | kernel/lib/print.c:94-140 | The digits are the one numeral of the magnitude in the digit set of the flags, without a superfluous zero in front |
| NumberText.DigitsRead | kernel/lib/print.c:135-140 | The digits evaluate to the magnitude in the base |
| NumberText.DigitsFit | kernel/lib/print.c:89-140 | No word has more than 32 digits |
| NumberText.FormattedLength | kernel/lib/print.c:115-147 | The length is the maximum of the width and of sign, prefix and at least `precision` digits |

## Left out

- RedBlackTree.Tree.Replace: the new node is not below the old one or on the path to the root, where replacing would make a cycle.
- RedBlackTree.Find: the compare function is a pure function of the node that agrees with the order of the tree, as the source expects of it.
- The initializer macros of the tree, its checked wrappers (null tests only) and its commented-out printing.
- HeapAllocator.Allocator.Malloc: requires a size up to HEAP_BLOCK_SIZE_MAX, which the source asserts.
- HeapAllocator.Allocator.Free: requires an address that `malloc` has returned and that has not been freed, which the source can only partly check.
- HeapAllocator.Allocator.ClientWrite: clients write words at addresses inside their own payload, and never elsewhere.
- Pointers into KSEG0 are offsets into memory: the constant prefix is dropped. A word is stored at its byte address, so the overlap of words at unaligned addresses is not modelled.
- The list of heaps is a sequence in a field of its class; the two words of its links in each heap descriptor are reserved and not used. The run queue and the list of timers are linked.
- frame_alloc and frame_free: kernel/mm/falloc.c and the bitmap under it are not part of this model; only the contract is.
- KernelThreads.Kernel.ThreadCreate: the identity of the new thread is one that has not been used before, so that an address which is used again cannot be mistaken for a destroyed thread; stack, entry function, process and the failure of `vmm_create` are not modelled.
- KernelThreads.Kernel.ThreadWakeup: not called by others for a thread that waits in a join, which is the rule stated at kernel/proc/thread.c:508; without it a joiner would go on before its thread has finished.
- KernelThreads.Kernel.ThreadJoin: the thread exists, and the caller is neither the timer thread nor the idle thread, which never wait for others.
- KernelThreads.Kernel.TimerStart: the timer has been initialized and is not pending, which the source needs for its list; the timers inside thread structures are left to `thread_sleep`.
- KernelThreads.Kernel.TimerDestroy: not called by the handler for its own timer, which would wait for itself.
- KernelThreads.Kernel.ThreadAwake: the value that is returned, and the conversion of seconds and microseconds to jiffies, because the remaining time is computed after the expiration and supports no claim.
- The number of jiffies does not wrap. Whether the quantum of a thread is used up is an arbitrary choice at each timer interrupt.
- Several processors: the kernel has one run queue for each, but its own comments say that most of it is not safe on more than one.
- VirtualMemory.Memory.VmaMap: requires at least one page, and a place inside the address space that no other area holds; for automatic placement AutoRoom says exactly when that is so, and OverlapHides what goes wrong exactly when it is not (the source says at its head that overlaps are not handled). The segments other than the user's, for which the source panics, are not modelled.
- VirtualMemory.Memory.VmmCreate: requires fewer than 255 address spaces, where the source documents the limit of 254, since identifiers are never given back; memory for the structure is an arbitrary choice.
- VirtualMemory.Memory.TlbRefill: ending the thread is the result false; the end itself is `thread_finish`. Saving and restoring the context in assembly is not modelled.
- The coprocessor registers are records of their fields; the packing of fields into words and the cache bits are not modelled.
- AreaList.AreaList.Add: requires a positive size and a start before the end of the segment, which the source asserts through its search; the same holds of the target of Remap. The integers do not overflow.
- AreaList.AreaList.Resize: requires a positive size; an area of no pages would not be one.
- AreaList.AreaList.Merge: only into a real area; with the rear bumper as the second one the source would free a bumper.
- AreaList.AreaList.Split: only strictly inside an area, which the source asserts.
- NumberFormat.Number: the width and the precision are integers that do not overflow when the sign and the digits are subtracted; negating the smallest number wraps, as it does on the machine.
- The format strings of `printk`, the console, the device drivers, system calls, the user-space library and the synchronization primitives, whose bodies are mostly not written yet.
