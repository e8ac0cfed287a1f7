# A verified model of the Pintos kernel

This project models the parts of the Pintos teaching kernel that carry its weight and proves what they are for.

- **Concurrency.** `Semaphores`, `Kernel` (scheduler, semaphores and sleeping on one processor), `Locks` (lock and
  condition variable), `ReadersWriters` (one inode's protocol), `ProcessWait` (execute, wait, exit) and `PagePool`
  (page allocation with unlocked frees) are state machines. A step is one interrupts-off region or one access to shared
  memory; `Next` is the step, `Runs` a whole interleaving. Each module proves an inductive invariant and, from it,
  statements about every state of every run, and then what each operation brings about in every interleaving or when
  left alone.
- **File system.** `InodeIO` reads and writes bytes through 512-byte sectors, `Directory` decodes the 20-byte entries,
  `FileState` says what holds of the disk, the free map and the open-inode table, and `FileSystem` is the class whose
  methods create, open, read, write, remove and close. The directory, the inodes and the free map live on the disk
  as bytes and are read back from there.
- **Allocators.** `Bitmaps` (words and first fit), `PagePool` and `Malloc` (arenas over a bitmap).
- **Structures.** `LinkedList` (a sentinel chain sorted in place by splicing), `Timer` (the sleep queue on it) and
  `HashTable` (rows of such chains whose elements are relinked when the table grows or shrinks).
- **Arithmetic and layout.** `Arithmetic` (64-bit division), `PageTables` and `Loader` (ELF segments through two-level
  page tables), `Ustar` (archive headers) and `ArgStack` (the command line on the stack).
- `Options`, `Sequences`, `Machine`, `Bytes` and `Powers` hold what several modules share.

Objects that the source updates in place are classes with a `Valid()` predicate, and their methods are proved against
functions of the old state; the lemmas say what those functions mean. Machine integers are written out where their
width matters.

Where the code and its comments disagree, the model follows the code:

- `bitmap_scan_and_flip` is documented to return 0 for an empty group and returns `start`
  (`Bitmaps.EmptyGroup`).
- `process_wait` is documented to return -1 on a second call; it does so exactly when an earlier call blocked
  (`ProcessWait.WhatWaitsReturn`, with the counterexample in `ProcessWait.SecondWaitCanRepeatTheStatus`).
- `process_execute` is documented to report a failed load; the report is right exactly when the child has not left yet
  (`ProcessWait.SpawnReportIsRightUnlessTheChildHasLeft`, with both wrong reports in `ProcessWait.SpawnReportCanBeWrong`).
  A parent told that a failed child started waits for it forever (`ProcessWait.WaitOnFailedChildNeverEnds`, reached in
  `ProcessWait.WaitOnFailedChildHappens`).
- `umod64` and `smod64` return 32 bits; they give the remainder for every numerator exactly when the divisor is at most
  2^32, respectively 2^31 in size (`Arithmetic.Umod64ExactWhen`, `Arithmetic.Smod64ExactWhen`).
- `palloc_init` subtracts the user pool's share from the limited number of pages; the difference wraps around exactly when
  the limit is below that share (`PagePool.PoolsInRamExactly`, with such a limit in `PagePool.LowLimitWrapsAround`).
- `malloc` is documented to return at least `size` bytes; it does so exactly when `size` is at most 2^32 - 12
  (`Malloc.BigEnoughExactly`, with a request that is granted too little in `Malloc.HugeRequestGetsOnePage`).
- `dir_add` is documented to fail for a bad name; it does so with `dir_lock` still held (`FileSystem.FileSystem.DirAdd`).
- A `filesys_create` that fails gives everything back exactly when there was no room to begin with or the size is 0
  (`FileSystem.NothingLostExactly`, with a sector lost in `FileSystem.SectorLost`).
- `start_process` is meant to start the program that the command line's first word names, with all its words. It does so
  exactly when no space comes first and there are at most 31 words that fit the page (`ArgStack.StartsExactly`), because
  `t->name`, which is what gets loaded, keeps leading spaces. `ArgStack.SpaceInFront`, `ArgStack.TooManyWords`,
  `ArgStack.WordTooLong` and `ArgStack.BlankLine` are lines that fail.
- `filesys_create` takes an unsigned size from its system call as an `off_t`; from 2^31 on an assertion fails
  (`FileSystem.FileSystem.Create`).

## Model

| member | source | states |
|---|---|---|
| `LinkedList.Insert` | pintos-main/lib/kernel/list.c:157-166 | Relinking around one element turns a well-formed two-way chain into the chain with that element at that place. |
| `LinkedList.Remove` | pintos-main/lib/kernel/list.c:233-239 | Relinking past an element leaves the well-formed chain without it, and returns the element that followed. |
| `LinkedList.Splice` | pintos-main/lib/kernel/list.c:171-191 | The two writes that cut a stretch out and the four that graft it in before an element give well-formed chains with the same nodes, whether the place is in another list or anywhere outside the stretch in the same one. |
| `LinkedList.CutOut` | pintos-main/lib/kernel/list.c:182-184 | Cutting a stretch out leaves both the rest of the list and the stretch linked. |
| `LinkedList.Graft` | pintos-main/lib/kernel/list.c:186-190 | Grafting a linked stretch in before an element gives the chain with the stretch at that place. |
| `LinkedList.SplicedBack` | pintos-main/lib/kernel/list.c:171-191 | Within one list a splice to an earlier place exchanges the stretch with what stands between. |
| `LinkedList.SplicedForth` | pintos-main/lib/kernel/list.c:171-191 | So does one to a later place. |
| `LinkedList.List.FindEndOfRun` | pintos-main/lib/kernel/list.c:330-342 | The run starting at a place is ascending up to the element returned, which is the end or is less than the one before it. |
| `LinkedList.List.InplaceMerge` | pintos-main/lib/kernel/list.c:349-370 | Merging two adjacent ascending runs by splicing leaves one sorted stretch of the same nodes, changes nothing outside it, and only ever swaps elements that were in the wrong order. |
| `LinkedList.List.SortPass` | pintos-main/lib/kernel/list.c:384-404 | One pass merges pairs of runs in place: it leaves the list sorted or strictly lowers the number of descents, permutes the nodes, and only ever undoes inversions. |
| `LinkedList.List.Sort` | pintos-main/lib/kernel/list.c:375-407 | For every list and every strict weak order the sort ends and leaves a well-formed chain whose nodes are those of a stable insertion sort of the old ones, although it only splices links. |
| `LinkedList.MergeDropsDescents` | pintos-main/lib/kernel/list.c:384-404 | Merging two neighbouring maximal runs takes at least one descent out of the whole list, which is why the outer loop ends. |
| `LinkedList.MergeMoves` | pintos-main/lib/kernel/list.c:356-368 | When the head of the second run is less than the cursor, moving it in front of the cursor keeps the merge invariant: both parts sorted, only inversions undone. |
| `LinkedList.MergeAdvances` | pintos-main/lib/kernel/list.c:356-368 | When it is not less, stepping the cursor keeps the merge invariant. |
| `LinkedList.InsertionSortIsStable` | pintos-main/lib/kernel/list.c:372-407 | The insertion sort that Sort is compared with is ordered and stable for every strict weak order. |
| `LinkedList.StablySortedIsUnique` | pintos-main/lib/kernel/list.c:372-407 | A list has one stably sorted permutation, so being stably sorted pins down what Sort produces. |
| `LinkedList.SortedByInsertionPermutes` | pintos-main/lib/kernel/list.c:375-407 | The sorted list holds exactly the same nodes. |
| `LinkedList.InsertedAt` | pintos-main/lib/kernel/list.c:412-425 | The place where list_insert_ordered stops is where the recursive insertion puts the element: behind everything it is not less than. |
| `LinkedList.List.InsertOrdered` | pintos-main/lib/kernel/list.c:412-425 | Walking the chain and linking in gives the ordered insertion of the element into the old items. |
| `LinkedList.List.PushBack` | pintos-main/lib/kernel/list.c:202-205 | The chain with the element at the back. |
| `LinkedList.List.PopFront` | pintos-main/lib/kernel/list.c:243-248 | The front element is unlinked and returned; the rest keeps its order. |
| `LinkedList.List.PushFront` | pintos-main/lib/kernel/list.c:195-198 | The chain with the element at the front. |
| `LinkedList.List.RemoveAt` | pintos-main/lib/kernel/list.c:233-239 | An element anywhere in the list is unlinked; the others keep their order. |
| `Semaphores.DownKeepsSound` | pintos-main/threads/synch.c:61-79 | A turn of the waiting loop, whether it gets through or queues, keeps value = initial + ups - downs and the no-lost-wakeup bound. |
| `Semaphores.UpKeepsSound` | pintos-main/threads/synch.c:105-116 | So does an up, which wakes a waiter if there is one and raises the value in one interrupts-off region. |
| `Semaphores.FirstComeFirstServed` | pintos-main/threads/synch.c:105-116 | n ups wake exactly the n threads that have waited longest and leave the others in their order. |
| `Semaphores.NoLostWakeup` | pintos-main/threads/synch.c:61-116 | A positive value with somebody queued means a woken thread is about to look again and get through. |
| `Semaphores.LoneThread` | pintos-main/threads/synch.c:61-116 | A thread that has a semaphore to itself is never queued while the value is positive. |
| `Kernel.StepKeepsInv` | pintos-main/threads/thread.c:215-310 | Every step of the scheduler, the semaphores and the timer keeps the invariant over threads, queues, semaphores and sleepers. |
| `Kernel.SafeInEveryRun` | pintos-main/threads/thread.c:496-569 | In every state of every run exactly one thread is running, the ready list holds each ready non-idle thread once, no thread is in two queues, no thread but the initial one stays behind dying, and no thread is freed twice or is current, known or queued once freed. |
| `Kernel.ExitFrees` | pintos-main/threads/thread.c:519-547 | In every run a thread that exits is freed by the very switch away from it, for the first time, unless it is the initial thread. |
| `Kernel.LinkedThread` | pintos-main/threads/thread.h:86-91 | A thread in a queue has the status and activity that queue is for, which is why one list element per thread is enough. |
| `Kernel.SemaphoresInEveryRun` | pintos-main/threads/synch.c:61-116 | In every run the value is the initial one plus the ups among the actions minus the downs that got through, and waiters and woken threads are exactly the blocked and the unblocked ones retrying it. |
| `Kernel.DownPassesOrWaits` | pintos-main/threads/synch.c:61-75 | In every run sema_down lets its caller through when the value is positive and else puts it to sleep behind the others. |
| `Kernel.WaitersInOrder` | pintos-main/threads/synch.c:105-116 | However a run goes on, the thread at place i of the waiters stays blocked through i ups of that semaphore, and the next one puts it on the ready list. |
| `Kernel.RoundRobin` | pintos-main/threads/thread.c:496-504 | However a run goes on, the thread at place i of the ready list runs after exactly i other dispatches. |
| `Kernel.TheFrontRuns` | pintos-main/threads/thread.c:496-569 | In every run a step puts the threads it makes ready behind the others; giving up the processor takes the front of that list, or the idle thread if it is empty; no other step changes who runs. |
| `Kernel.CreatedThreadStarts` | pintos-main/threads/thread.c:166-207 | A created thread is blocked and in no list, whatever happens, until thread_unblock makes it the last one on the ready list. |
| `Kernel.QueuedIsOrdered` | pintos-main/devices/timer.c:86-114 | The sleep queue stays ordered by deadline with equal deadlines first come, first served. |
| `Kernel.FrontCheckSuffices` | pintos-main/devices/timer.c:179-202 | Checking only the front of the ordered queue wakes exactly the sleepers that checking all of them would, in order. |
| `Kernel.TickWakesTheDue` | pintos-main/devices/timer.c:179-202 | After every timer interrupt of every run nobody listed is due, and everybody who was due is ready. |
| `Kernel.NobodyWakesEarly` | pintos-main/devices/timer.c:86-101 | In every run a thread that set its alarm is still asleep or its deadline has passed. |
| `Kernel.SleepersWakeOnTime` | pintos-main/devices/timer.c:93-100 | A sleeper is blocked and queued until the first timer interrupt that finds its deadline reached, and that one puts it on the ready list. |
| `Timer.InsertedIsQueued` | pintos-main/devices/timer.c:86-114 | Ordered insertion into the linked list does to the deadlines what the scheduler model does to its queue. |
| `Timer.SleepQueue.Sleep` | pintos-main/devices/timer.c:86-101 | The caller joins the linked queue where the model puts it, and the queue stays ordered. |
| `Timer.SleepQueue.Interrupt` | pintos-main/devices/timer.c:179-202 | The popping loop returns exactly the due sleepers in order and leaves exactly the others. |
| `ReadersWriters.StepKeepsInv` | pintos-main/filesys/inode.c:180-305 | Every step of every reader or writer keeps the invariant tying the two semaphores, the counter, the queues and the data together. |
| `ReadersWriters.ExclusionInEveryRun` | pintos-main/filesys/inode.c:180-305 | In every interleaving a writer is inside alone, and current_readers is exactly the number of readers counted in. |
| `ReadersWriters.ReadsSeeOneVersion` | pintos-main/filesys/inode.c:192-239 | Every read returns the bytes that one single version of the file between complete writes holds in the range its caller asked for, as far as that lies in the file. |
| `ReadersWriters.ReadersHaveTheNewest` | pintos-main/filesys/inode.c:182-239 | While a reader is inside, that version is the newest and is what the disk holds. |
| `ReadersWriters.WritesAreWhole` | pintos-main/filesys/inode.c:252-304 | Exactly the last step of a write adds a version: the newest one with the bytes its caller passed laid over the range its caller named. A sector read, patched and written back in separate steps loses nothing. |
| `ReadersWriters.ServesItsCall` | pintos-main/filesys/inode.c:177-251 | In every run a thread under way works on the offset and the size or bytes of the call that the list of actions shows it made last. |
| `ReadersWriters.WriteTakesEffect` | pintos-main/filesys/inode.c:242-305 | A write on an inode nobody else uses goes through and leaves the file overwritten as asked. |
| `ReadersWriters.ReadTakesEffect` | pintos-main/filesys/inode.c:177-239 | A read goes through whatever other readers are inside, returns the bytes asked for and changes nothing. |
| `ReadersWriters.StepsMakeProgress` | pintos-main/filesys/inode.c:177-305 | In every interleaving each step of a call brings it nearer to its end, unless it queues at a semaphore whose value is 0. |
| `ReadersWriters.TripsRead` | pintos-main/filesys/inode.c:192-225 | What the trips of the read loop take out of the sectors is, joined, the slice of the file asked for. |
| `ReadersWriters.PiecesWrite` | pintos-main/filesys/inode.c:253-293 | The pieces of the write loop, applied in order, overwrite that slice and nothing else. |
| `ReadersWriters.SomebodyCanStep` | pintos-main/filesys/inode.c:180-305 | The protocol never gets stuck: while some thread is under way, some thread can step. |
| `Locks.StepKeepsInv` | pintos-main/threads/synch.c:182-318 | Every step of acquire, release, wait, signal and broadcast keeps the invariant over the lock, the condition queue and every call's private semaphore. |
| `Locks.ExclusionInEveryRun` | pintos-main/threads/synch.c:182-223 | In every interleaving at most one thread owns the lock, and a thread inside, also one back from cond_wait, is the recorded holder. |
| `Locks.SignalsAreFifo` | pintos-main/threads/synch.c:271-318 | The queue always holds the youngest calls in order; every older call was popped and its private semaphore is upped exactly once. |
| `Locks.NoSignalIsMissed` | pintos-main/threads/synch.c:271-303 | Once a call has been signalled its caller is not queued at its semaphore and gets through at its next turn. |
| `Locks.SignalWakesTheFront` | pintos-main/threads/synch.c:294-304 | Whatever other threads do before the signaller's next step, after it the front call and no other is off the list and signalled; with nobody waiting nothing changes. |
| `Locks.BroadcastWakesAll` | pintos-main/threads/synch.c:312-318 | A broadcast that has ended has signalled every call on the list when it began, in every interleaving. |
| `Locks.BroadcastEnds` | pintos-main/threads/synch.c:312-318 | It ends with the list empty, two steps for each call and one more. |
| `Locks.NobodyReturnsUnsignalled` | pintos-main/threads/synch.c:271-285 | Until it is signalled a call of cond_wait does not return, and its caller's turn at the private semaphore puts it to sleep. |
| `Locks.LockIsGivenUp` | pintos-main/threads/synch.c:216-223 | After two steps of lock_release or cond_wait, others' between, nobody holds the lock and its value is 1; a waiter is then last on the list. |
| `Locks.AcquireTakesAFreeLock` | pintos-main/threads/synch.c:182-190 | A thread in lock_acquire takes the lock at its next step exactly when nobody owns it and else queues behind the others; the step after makes it the holder. |
| `Locks.TryAcquireTakesAFreeLock` | pintos-main/threads/synch.c:198-209 | lock_try_acquire takes the lock exactly when nobody owns it and else changes nothing. |
| `Locks.SignallersTouchLiveCalls` | pintos-main/threads/synch.c:294-303 | A signaller about to up a call's semaphore finds the caller still inside cond_wait, so the semaphore on its stack exists. |
| `Locks.FreeLockIsTakenUp` | pintos-main/threads/synch.c:182-223 | If somebody waits for the lock and nobody owns it, some thread can take it at its next step. |
| `ProcessWait.StepKeepsInv` | pintos-main/userprog/process.c:48-285 | Every step of parent and child keeps the invariant over alive_count, the two semaphores, the status and the answers given. |
| `ProcessWait.WhatWaitsReturn` | pintos-main/userprog/process.c:182-239 | In every interleaving the first wait returns the status the child left with, and a later one returns -1 exactly when an earlier one blocked. |
| `ProcessWait.StatusIsFinal` | pintos-main/userprog/process.c:242-259 | Once the child is leaving, its status never changes. |
| `ProcessWait.StatusIsTheOneStored` | pintos-main/userprog/syscall.c:139-152 | The status is the one the child last stored, or -1 if it never stored any. |
| `ProcessWait.EveryWaitIsAnswered` | pintos-main/userprog/process.c:182-239 | The number of answers is the number of calls of process_wait among the actions, less the one the parent may be in. |
| `ProcessWait.WaitReturnsTheStatus` | pintos-main/userprog/process.c:231-238 | From every state with the parent blocked on a running child: the child leaves, takes two steps, the parent two, and the call has returned what was passed to exit, or -1 after a kill. |
| `ProcessWait.WaitCases` | pintos-main/userprog/process.c:214-238 | On a child that loaded, process_wait answers -1 at once after a call that blocked, returns the status at once if the child has left, and else is asleep after four steps. |
| `ProcessWait.SpawnReturns` | pintos-main/userprog/process.c:72-100 | Once the load ends, process_execute returns after the stated steps, with the child registered or with a failure. |
| `ProcessWait.LastOneOut` | pintos-main/userprog/process.c:248-258 | A parent that exits is gone for good; a registered child that leaves after it finds itself the last one and wakes nobody. |
| `ProcessWait.SecondWaitCanRepeatTheStatus` | pintos-main/userprog/process.c:218-228 | A run in which two waits on a dead child both return its status: that path does not set waited. |
| `ProcessWait.WaitEndsWithTheChild` | pintos-main/userprog/process.c:233-259 | A wait on a child that loaded gets through at its next step once the child is dead. |
| `ProcessWait.SpawnReportIsRightUnlessTheChildHasLeft` | pintos-main/userprog/process.c:84-101 | process_execute reports failure exactly for failed loads if and only if the child has not yet left when alive_count is tested. |
| `ProcessWait.SpawnReportCanBeWrong` | pintos-main/userprog/process.c:84-101 | Two runs: a child that loaded and left is reported as failed, and one that failed and left is reported as started. |
| `ProcessWait.AliveCountInEveryRun` | pintos-main/userprog/process.c:136-151 | alive_count is the number of parties alive for a child that loaded, and one less than that for one that did not and has left. |
| `ProcessWait.WaitOnFailedChildNeverEnds` | pintos-main/userprog/process.c:145-259 | A parent that waits for a registered child whose load failed stays blocked in every continuation. |
| `ProcessWait.WaitOnFailedChildHappens` | pintos-main/userprog/process.c:93-234 | A run in which the parent registers a failed child and blocks for it. |
| `PagePool.StepKeepsInv` | pintos-main/threads/palloc.c:70-137 | Every single-bit step of a locked allocation or an unlocked free keeps every page claimed by at most one group, and marked exactly when claimed. |
| `PagePool.GroupsAreDisjointInEveryRun` | pintos-main/threads/palloc.c:70-137 | In every interleaving the groups handed out are inside the pool, marked, and share no page. |
| `PagePool.NobodyPanics` | pintos-main/threads/palloc.c:135-136 | The assertion that every page being freed is marked never fails. |
| `PagePool.MarkedExactlyWhenHeld` | pintos-main/threads/palloc.c:70-137 | Between calls a page is marked exactly when some holder has it, so giving all groups back restores the pool. |
| `PagePool.UninterruptedScan` | pintos-main/lib/kernel/bitmap.c:271-284 | A scan that nobody interrupts settles on the lowest group that fits, or gives up only when there is none. |
| `PagePool.UninterruptedScanEnds` | pintos-main/lib/kernel/bitmap.c:271-284 | It settles after at most n(cnt+1)+1 steps on n bits. |
| `PagePool.GetTakesTheLowestGroup` | pintos-main/threads/palloc.c:70-98 | Left alone, an allocation hands out the lowest free group of the size asked for with exactly its pages marked, and changes nothing only if there is no such group. |
| `PagePool.FreeGivesThePagesBack` | pintos-main/threads/palloc.c:113-137 | Left alone, a free clears exactly the marks of the group's pages. |
| `PagePool.PoolsInRamExactly` | pintos-main/threads/palloc.c:45-62 | The kernel pool lies in RAM if and only if the limit on free pages leaves the user pool its share; then the pools share no page and page_from_pool tells them apart. |
| `PagePool.PoolsShareTheRam` | pintos-main/threads/palloc.c:45-62 | The pools share the free pages up to the limits, at most half for the user, and the pages before each hold a bit for every page of it. |
| `PagePool.LowLimitWrapsAround` | pintos-main/threads/palloc.c:45-62 | A limit of 10 pages on 4 MB of RAM gives a kernel pool of almost 2^32 pages. |
| `Bitmaps.Bitmap.Mark` | pintos-main/lib/kernel/bitmap.c:144-153 | OR-ing the mask into one word sets that bit of the bitmap and no other. |
| `Bitmaps.Bitmap.Reset` | pintos-main/lib/kernel/bitmap.c:156-165 | AND-ing the complement clears that bit and no other. |
| `Bitmaps.Bitmap.Test` | pintos-main/lib/kernel/bitmap.c:182-187 | The masked word is nonzero exactly when the bit is set. |
| `Bitmaps.MarkedBits` | pintos-main/lib/kernel/bitmap.c:43-46 | The bits of a word after OR with a mask, bit by bit. |
| `Bitmaps.ClearedBits` | pintos-main/lib/kernel/bitmap.c:156-165 | The bits of a word after AND with a complemented mask, bit by bit. |
| `Bitmaps.Bitmap.SetMultiple` | pintos-main/lib/kernel/bitmap.c:200-209 | Exactly the bits of the range take the value. |
| `Bitmaps.Bitmap.Contains` | pintos-main/lib/kernel/bitmap.c:230-242 | True exactly when not all bits of the range are the other value. |
| `Bitmaps.Bitmap.Scan` | pintos-main/lib/kernel/bitmap.c:271-284 | The scan finds the first fit. |
| `Bitmaps.FirstFitIsLowest` | pintos-main/lib/kernel/bitmap.c:267-284 | The first fit is the lowest group of that value at or after start, and there is none only if no group fits. |
| `Bitmaps.EmptyGroup` | pintos-main/lib/kernel/bitmap.c:286-299 | For an empty group the answer is start, whatever the bits. |
| `Bitmaps.Bitmap.ScanAndFlip` | pintos-main/lib/kernel/bitmap.c:293-299 | The first fit is returned and flipped and nothing else changes; with no fit nothing changes. |
| `Bitmaps.Bitmap.Read` | pintos-main/lib/kernel/bitmap.c:312-321 | Reading the words from a file and masking the last one gives the bits the file says. |
| `Bitmaps.DecodedImage` | pintos-main/lib/kernel/bitmap.c:312-329 | The bytes a bitmap is written as say the same bits. |
| `Malloc.BlockAt` | pintos-main/threads/malloc.c:247-269 | An arena's blocks lie inside its page past the header, and page and index are recovered from the address. |
| `Malloc.FullArena` | pintos-main/threads/malloc.c:225-228 | The count of an arena's free blocks reaches blocks_per_arena exactly when every one of its blocks is on the list. |
| `Malloc.MallocKeepsInv` | pintos-main/threads/malloc.c:86-146 | malloc keeps every count exact, every block either listed or live, and every arena busy; it returns a block not live before, or changes nothing. |
| `Malloc.FreeKeepsInv` | pintos-main/threads/malloc.c:204-244 | free keeps the same, gives an arena back exactly when its last live block goes, and the count never passes blocks_per_arena. |
| `Malloc.LiveBlocksAreDisjoint` | pintos-main/threads/malloc.c:86-146 | After any sequence of calls live blocks lie past their header, inside their pages and apart from each other, and the bytes asked for are within them. |
| `Malloc.LiveBlocksAreBigEnough` | pintos-main/threads/malloc.c:84-244 | After any sequence of calls every live block still has room for the size asked for, if and only if that size is at most 2^32 - 12. |
| `Malloc.RoomsKeptByFree` | pintos-main/threads/malloc.c:204-244 | free leaves block_size of every other live block alone. |
| `Malloc.BookkeepingIsApart` | pintos-main/threads/malloc.c:50-60 | After any sequence of calls no byte of an arena header or of a free block's list links lies in a live block. |
| `Malloc.HugeRequestGetsOnePage` | pintos-main/threads/malloc.c:101-107 | With one free page a request for 2^32 - 11 bytes is granted and gets 4084. |
| `Malloc.KeptArenaHasLiveBlock` | pintos-main/threads/malloc.c:224-234 | After any sequence of calls every arena that is kept has a live block. |
| `Malloc.FreeingAllRestoresThePool` | pintos-main/threads/malloc.c:204-244 | After any sequence of calls that has given every block back, the heap, the lists and the page pool are exactly as at the start. |
| `Malloc.PagesSuffice` | pintos-main/threads/malloc.c:101-107 | A big request gets enough pages exactly when its sum with the header does not wrap around; otherwise it gets one page. |
| `Malloc.BigEnoughExactly` | pintos-main/threads/malloc.c:84-146 | In every state the block returned is big enough if and only if the size is at most 2^32 - 12. |
| `Malloc.GrantedExactly` | pintos-main/threads/malloc.c:84-146 | malloc returns a block if and only if one of the request's class is listed or a page is free, or for a big request a group of the pages it wants is free. |
| `Malloc.Allocator.constructor` | pintos-main/threads/malloc.c:70-82 | The loop over block sizes sets up the seven descriptors with their block counts. |
| `Malloc.Allocator.Malloc` | pintos-main/threads/malloc.c:86-146 | The method on lists and headers does what the function Malloced says, keeps the invariant, and returns a block exactly when there is something to give. |
| `Malloc.Allocator.Free` | pintos-main/threads/malloc.c:204-244 | The method, with its loop taking blocks off the list, does what the function Freed says and keeps the invariant; of the bytes it fills, none is in another live block. |
| `Malloc.Allocator.Realloc` | pintos-main/threads/malloc.c:184-200 | It succeeds exactly when malloc can give the new size; the old block is freed only once a new one is there and a failure changes nothing; the smaller of the new size and the old block's room is copied, which fits the new block unless the size is over 2^32 - 12, and then the bytes are the old block's and every other live block has its own. |
| `Malloc.RoomsKept` | pintos-main/threads/malloc.c:169-176 | malloc leaves block_size of every live block alone, so realloc may ask for it afterwards. |
| `HashTable.TurnOffBounds` | pintos-main/lib/kernel/hash.c:300-309 | Turning off the lowest bit of a number that is not a power of two keeps its highest bit; of a power of two it leaves 0. |
| `HashTable.RoundDown` | pintos-main/lib/kernel/hash.c:336-340 | The loop ends at the largest power of two not above its start. |
| `HashTable.AndLowBits` | pintos-main/lib/kernel/hash.c:278-282 | Masking with a power of two minus one is the remainder, so find_bucket stays in range. |
| `HashTable.NotElsewhere` | pintos-main/lib/kernel/hash.c:278-297 | If the hash respects equality, an equal element can only be in the key's own bucket. |
| `HashTable.Table.Find` | pintos-main/lib/kernel/hash.c:122-125 | Returns the one element equal to the key, or nothing exactly when there is none. |
| `HashTable.Table.Rehash` | pintos-main/lib/kernel/hash.c:320-375 | Unlinking every element from its list while walking it and pushing it onto its new one keeps the elements, puts each in its own bucket on well-formed lists, and the number of buckets is the largest power of two not above max(4, elems/2); without memory nothing changes. |
| `HashTable.MoveChain` | pintos-main/lib/kernel/hash.c:365-371 | The inner loop empties the old list and leaves each of its elements linked into the list its hash says. |
| `HashTable.MoveRow` | pintos-main/lib/kernel/hash.c:361-372 | After the outer loop the new lists hold exactly the elements of the old ones. |
| `HashTable.Table.Insert` | pintos-main/lib/kernel/hash.c:91-102 | Adds the element exactly when none equal is present, across growth and failed growth; the count stays exact and, given memory, the number of lists suits it. |
| `HashTable.Table.Replace` | pintos-main/lib/kernel/hash.c:106-118 | The element takes the place of the equal one, which is returned; given memory, the number of lists suits the count. |
| `HashTable.Table.Delete` | pintos-main/lib/kernel/hash.c:134-142 | The equal element is removed and returned, across shrinking; given memory, the number of lists then suits the count. |
| `HashTable.Cursor.constructor` | pintos-main/lib/kernel/hash.c:184-192 | Every element of the table is still to come, each once, and their number is elem_cnt. |
| `HashTable.Cursor.Next` | pintos-main/lib/kernel/hash.c:202-216 | Returns the next remaining element, over empty buckets, and nothing exactly when none is left. |
| `InodeIO.ReadAt` | pintos-main/filesys/inode.c:188-232 | For every offset and size the loop reads exactly the slice of the flat file bytes; it moves all available bytes with a bounce buffer and exactly the whole aligned sectors without one. |
| `InodeIO.WriteAt` | pintos-main/filesys/inode.c:249-300 | The loop overwrites exactly that slice of the whole disk's bytes and no other byte, including those of partly written sectors. |
| `InodeIO.WriteIsOverwrite` | pintos-main/filesys/inode.c:247-305 | The file written reads back as its old bytes with the new ones laid over them. |
| `InodeIO.WriteStaysInside` | pintos-main/filesys/inode.c:24-31 | No sector outside the inode's extent changes. |
| `InodeIO.ReadChunk` | pintos-main/filesys/inode.c:192-225 | What one trip copies out of a sector is the next stretch of the file. |
| `InodeIO.WriteChunk` | pintos-main/filesys/inode.c:253-293 | The sector written in one trip extends the stretch overwritten so far. |
| `InodeIO.SectorWrite` | pintos-main/filesys/inode.c:284-292 | Writing back a sector patched at an offset patches the flat bytes there. |
| `InodeIO.FlatIsFaithful` | pintos-main/filesys/inode.c:20-31 | The flat bytes determine every sector, so what is said of them is said of the disk. |
| `Directory.SlotWritten` | pintos-main/filesys/directory.c:205-213 | Writing one entry through the file changes that slot of the directory and no other. |
| `Directory.NewEntryIsUsed` | pintos-main/filesys/directory.c:176-180 | The entry written over an old one, of which strlcpy leaves some bytes, decodes to the new name and sector. |
| `Directory.EntryLayout` | pintos-main/filesys/directory.c:21-25 | The directory entry byte by byte. |
| `Directory.FindAfter` | pintos-main/filesys/directory.c:97-116 | What every name stands for after one slot changes. |
| `FileState.OthersKept` | pintos-main/filesys/inode.c:13-31 | A disk change confined to one inode's data sectors leaves every inode on disk and all other files' bytes. |
| `FileState.BitsChanged` | pintos-main/filesys/free-map.c:32-55 | Marks of sectors that no inode has may change, with the map's file rewritten to match, without any file or name changing. |
| `FileState.NameAdded` | pintos-main/filesys/directory.c:145-184 | Giving a prepared inode a free slot keeps the whole invariant: extents disjoint and marked, names and inodes unique. |
| `FileState.NameErased` | pintos-main/filesys/directory.c:189-221 | Erasing an entry and marking its open inode keeps it. |
| `FileState.InodeDropped` | pintos-main/filesys/inode.c:150-163 | Dropping a removed inode at its last close keeps it, and its sectors are then nobody's but still marked. |
| `FileSystem.FileSystem.constructor` | pintos-main/filesys/filesys.c:19-33 | A formatted disk whose map has been closed, reopened and read back satisfies the invariant: the map's file decodes to the map, the root directory is empty, and exactly the system's sectors are marked. |
| `FileSystem.FileSystem.Mount` | pintos-main/filesys/filesys.c:19-33 | Starting up on the disk of a file system whose files were all closed gives back the same free map, names, inodes and bytes. |
| `FileSystem.FileSystem.OpenMap` | pintos-main/filesys/free-map.c:58-65 | The map is read from its file, by way of its inode on disk. |
| `FileSystem.FileSystem.FreeMapAllocate` | pintos-main/filesys/free-map.c:32-45 | The first free sectors in a row are marked, on disk too, and belonged to no inode; files and names are as before. |
| `FileSystem.FileSystem.FreeMapRelease` | pintos-main/filesys/free-map.c:48-55 | Exactly the given sectors, which were marked and nobody's, become free. |
| `FileSystem.FileSystem.InodeCreate` | pintos-main/filesys/inode.c:49-85 | The new inode is on disk with a marked extent of zeros that no other inode shares, or nothing has changed; a length of 2^31 or more panics. |
| `FileSystem.FileSystem.Lookup` | pintos-main/filesys/directory.c:97-116 | The loop over entries read from disk finds the first slot in use by that name. |
| `FileSystem.FileSystem.DirAdd` | pintos-main/filesys/directory.c:145-184 | Succeeds exactly when the name has 1 to 14 characters, is new and a slot is free; then only that name changes, else nothing; dir_lock is left held exactly for a bad name. |
| `FileSystem.FileSystem.DirRemove` | pintos-main/filesys/directory.c:189-221 | Succeeds exactly when the name exists; then the state is Unlinked, else unchanged. |
| `FileSystem.FileSystem.InodeOpen` | pintos-main/filesys/inode.c:90-124 | One more opener of the inode, whose extent is the one on disk. |
| `FileSystem.FileSystem.InodeClose` | pintos-main/filesys/inode.c:143-165 | The last close of a removed inode frees exactly its sectors, once, and nothing else; any other close frees none. |
| `FileSystem.FileSystem.Create` | pintos-main/filesys/filesys.c:46-59 | Succeeds exactly when the size is below 2^31 and there is memory, a sector, room for the data, a good and new name and a free slot; then the name stands for a new file of zeros and every other name and file is as before; else names, inodes and files are as before and exactly the sectors found for the data stay marked; it panics exactly for a larger size with a sector free. |
| `FileSystem.NothingLostExactly` | pintos-main/filesys/filesys.c:46-59 | A create that failed leaves the free map as it was if and only if there was no room or nothing to store. |
| `FileSystem.SectorLost` | pintos-main/filesys/filesys.c:46-59 | A map on which a failed create loses a sector. |
| `FileSystem.FileSystem.OpenFile` | pintos-main/filesys/filesys.c:66-77 | Opens exactly what the name stands for, never a removed inode, and changes only the open counts. |
| `FileSystem.FileSystem.Remove` | pintos-main/filesys/filesys.c:83-91 | Fails exactly when there is no such name; an open inode keeps its data until its last close, an unopened one is freed at once, exactly. |
| `FileSystem.FileSystem.ReadFile` | pintos-main/filesys/inode.c:180-240 | Reads the slice of the file's bytes, removed or not, while it is open. |
| `FileSystem.FileSystem.WriteFile` | pintos-main/filesys/inode.c:247-305 | Overwrites the slice of that file's bytes; every other file, the directory and the free map are as before. |
| `FileSystem.InodeReadsBack` | pintos-main/filesys/inode.c:62-70 | The inode sector written decodes to the same start and length. |
| `FileSystem.InodeLayout` | pintos-main/filesys/inode.h:16-21 | The inode's sector byte by byte. |
| `Arithmetic.Nlz` | pintos-main/lib/arithmetic.c:38-65 | Shifting left by the result brings the highest set bit to the top of the word. |
| `Arithmetic.Udiv64` | pintos-main/lib/arithmetic.c:69-115 | For all 64-bit n and nonzero d the result is floor(n/d), and DIVL is never asked for a quotient over 32 bits. |
| `Arithmetic.ShortDivision` | pintos-main/lib/arithmetic.c:71-101 | The two-digit division by a 32-bit divisor is exact and does not trap. |
| `Arithmetic.EstimateIsClose` | pintos-main/lib/arithmetic.c:109-111 | The estimate from the normalised divisor is the quotient or one more, and does not trap. |
| `Arithmetic.RoundedDivisor` | pintos-main/lib/arithmetic.c:104-112 | Rounding the divisor down to its top 32 bits costs at most one in the quotient. |
| `Arithmetic.CorrectedEstimate` | pintos-main/lib/arithmetic.c:112-112 | Comparing n - (q-1)d with d picks the right one of the two, without wrapping around. |
| `Arithmetic.Umod64` | pintos-main/lib/arithmetic.c:119-122 | The low 32 bits of the remainder. |
| `Arithmetic.Umod64ExactWhen` | pintos-main/lib/arithmetic.c:119-122 | It is the remainder for every n if and only if d is at most 2^32. |
| `Arithmetic.Sdiv64` | pintos-main/lib/arithmetic.c:126-132 | The quotient rounded towards zero, except for INT64_MIN / -1, which gives INT64_MIN. |
| `Arithmetic.QuotientAndRemainder` | pintos-main/lib/arithmetic.c:124-139 | That quotient and remainder satisfy n = dq + r with \|r\| < \|d\| for all signs. |
| `Arithmetic.Smod64` | pintos-main/lib/arithmetic.c:136-139 | The low 32 bits, read as signed, of the remainder with the sign of n, also for INT64_MIN and -1. |
| `Arithmetic.Smod64ExactWhen` | pintos-main/lib/arithmetic.c:136-139 | It is the remainder for every n if and only if \|d\| is at most 2^31. |
| `PageTables.PteCreateUser` | pintos-main/threads/pte.h:91-111 | The entry is present, for user code, names the frame and is writable exactly as asked. |
| `PageTables.SeenExactly` | pintos-main/userprog/pagedir.c:119-136 | What user code sees, which takes present and user bits in both levels, is what pagedir_get_page finds by the present bit alone. |
| `PageTables.AddTableKeeps` | pintos-main/userprog/pagedir.c:66-74 | Installing an empty page table changes what is seen at no user page and the translation of no kernel page. |
| `PageTables.CopyDirectoryKeeps` | pintos-main/userprog/pagedir.c:18-24 | A copy of the directory shows the same user pages and translates every kernel page as before. |
| `PageTables.SetPteKeeps` | pintos-main/userprog/pagedir.c:94-113 | Writing the page's entry changes what is seen at that page only, although many pages share a table, and the translation of no kernel page. |
| `Loader.ValidateMeans` | pintos-main/userprog/process.c:550-590 | The tests with wrapping sums accept exactly the segments between page 1 and PHYS_BASE with matching page offsets. |
| `Loader.Sizes` | pintos-main/userprog/process.c:457-475 | The counts do not underflow and fill whole pages that stay below PHYS_BASE. |
| `Loader.AddressSpace.LookupPage` | pintos-main/userprog/pagedir.c:55-82 | The page's table exists afterwards or there was no memory; no page looks different. |
| `Loader.AddressSpace.InstallPage` | pintos-main/userprog/process.c:683-691 | Succeeds exactly on an unmapped page whose table exists or can be had, and then changes that page only; else changes nothing. |
| `Loader.AddressSpace.LoadSegment` | pintos-main/userprog/process.c:606-653 | On success the pages, all unmapped before, hold the file's bytes and then zeros; on failure some leading pages do; no other page changes; it fails only for a short file, a mapped page or lack of memory. |
| `Loader.AddressSpace.Load` | pintos-main/userprog/process.c:398-504 | Succeeds only if no header is refused and no page is needed twice; then every loadable segment, the stack page and nothing else is in user memory and the entry point is the header's; fails only for lack of memory or for a reason in the file; kernel pages and page 0 are as before and no frame is lost. |
| `Loader.HeaderReadsBack` | pintos-main/userprog/process.c:335-352 | For every file that starts with an executable header, laid out field by field, load's tests hold exactly of its fields, and entry point and program headers are those it names. |
| `Loader.PhdrReadsBack` | pintos-main/userprog/process.c:357-367 | A program header laid out as eight words reads back as itself wherever it is in the file. |
| `Loader.WriteFlag` | pintos-main/userprog/process.c:380-382 | A segment is writable exactly when the second lowest bit of its flags is set. |
| `Loader.SegmentBytes` | pintos-main/userprog/process.c:454-489 | Every address p_vaddr+i translates to file byte p_offset+i for i < p_filesz and to 0 up to p_memsz, writable exactly when flagged. |
| `Ustar.StripAntisocialPrefixes` | pintos-main/lib/ustar.c:61-67 | The loop computes the stripped name. |
| `Ustar.StrippedIsSafe` | pintos-main/lib/ustar.c:52-67 | A stripped name is a tail of the name or ".", is not empty or "..", and starts with none of "/", "./", "../". |
| `Ustar.StrippedTwice` | pintos-main/lib/ustar.c:61-67 | Stripping is idempotent. |
| `Ustar.StrippedIsLongest` | pintos-main/lib/ustar.c:61-67 | What is left is the longest tail of the name that starts with none of them, unless that is empty or "..". |
| `Ustar.FormatOctal` | pintos-main/lib/stdio.c:439-515 | The reversed buffer and the padding print the number in octal with at least width digits and no more than needed beyond that. |
| `Ustar.ParseOctalField` | pintos-main/lib/ustar.c:123-150 | The loop with its overflow test accepts exactly the fields that ParsedExactly describes, with their value. |
| `Ustar.ParsedExactly` | pintos-main/lib/ustar.c:114-150 | A field is accepted with value v exactly when it starts with one or more octal digits and then a space or null, and they stand for v, which fits 32 bits. |
| `Ustar.OctalReadsBack` | pintos-main/lib/ustar.c:114-150 | Every 32-bit number printed in a field parses back to itself. |
| `Ustar.CalculateChksum` | pintos-main/lib/ustar.c:34-50 | The loop computes that sum. |
| `Ustar.ChksumIsTheByteSum` | pintos-main/lib/ustar.c:34-50 | The checksum is the plain sum of the 512 bytes with bytes 148 to 155 replaced by spaces. |
| `Ustar.MadeChksum` | pintos-main/lib/ustar.c:108-109 | The checksum field of a finished header parses to the checksum of that finished header. |
| `Ustar.MakeHeader` | pintos-main/lib/ustar.c:76-112 | Fills the 512 bytes with the header for the stripped name, exactly when that has at most 99 characters. |
| `Ustar.MadeHeader` | pintos-main/lib/ustar.c:91-109 | The header made is the seventeen fields of the format laid out one after the other, mode, owner, time and magic spelled out. |
| `Ustar.ParseHeader` | pintos-main/lib/ustar.c:168-214 | The checks in order compute the parse of the header, error by error. |
| `Ustar.ParsedByFields` | pintos-main/lib/ustar.c:180-213 | Read field by field, an entry comes exactly from a header with the right magic, version, checksum, name and type, and each error has its own reason and no earlier one. |
| `Ustar.RoundTrip` | pintos-main/lib/ustar.c:69-214 | Parsing the header made for any name, type and size gives back the stripped name, the type and the size; a directory's size reads as 0 and a negative one is too large. |
| `ArgStack.StrtokR` | pintos-main/lib/string.c:220-256 | Returns the place of the next word, null-terminated in the buffer, and leaves the rest of the line to be cut; earlier bytes do not change. |
| `ArgStack.Tokenize` | pintos-main/userprog/process.c:119-130 | The places stored hold exactly the line's words in order, up to 32 of them, with a null pointer behind them when there are fewer; a line without a word leaves only null pointers. |
| `ArgStack.PushArgs` | pintos-main/userprog/process.c:509-542 | Either strlen is given a null pointer, or a store goes below the page, or index 32 of the pointer array is written, or the page at the final stack pointer is a frame for the words: word-aligned, argv[argc] as return address, argc, argv, sentinel, strings above the pointers and apart from each other; which of them is decided exactly. |
| `ArgStack.FrameReadsBack` | pintos-main/userprog/process.c:509-542 | Following argv from the stack pointer reads back each word. |
| `ArgStack.StartProcess` | pintos-main/userprog/process.c:119-155 | For every command line and every set of loadable names: not loaded, a null pointer to strlen, a store below the page, an index past the array, or a stack whose frame holds the space-separated words under a null return address; which of them is decided exactly. |
| `ArgStack.MakeName` | pintos-main/threads/thread.c:445-457 | strlcpy to 16 bytes and one strtok_r leave the leading spaces and the first word, of 15 characters at most. |
| `ArgStack.NameIsFirstWord` | pintos-main/threads/thread.c:445-457 | That is the first word of the line if and only if no space comes first and the word has at most 15 characters. |
| `ArgStack.StartsExactly` | pintos-main/userprog/process.c:119-144 | A line whose first word names a program starts it with all its words if and only if no space comes first and it has at most 31 words that fit the page. |
| `ArgStack.SpaceInFront` | pintos-main/threads/thread.c:445-457 | A line whose first word is not what gets loaded. |
| `ArgStack.BlankLine` | pintos-main/userprog/process.c:122-144 | A line of two spaces asks for a program with that name, which a directory can hold, and has no word to push. |
| `ArgStack.TooManyWords` | pintos-main/userprog/process.c:509-522 | A line of 32 one-letter words names a program, fits the page and runs past the end of the pointer array. |
| `ArgStack.WordTooLong` | pintos-main/userprog/process.c:509-542 | A one-letter program with an argument of 4080 letters leaves no room for the pointers. |

## Left out

- Kernel: priorities, time slices beyond the yield they cause, and thread_create's failure are not modelled; sleep deadlines are assumed to fit their `int` field.
- Locks: the lock is not acquired recursively and signallers hold it, as the source's assertions demand of callers.
- ReadersWriters: the bounce buffer is assumed to be had; a call that stops early without it is in InodeIO only.
- ProcessWait: one parent and one child, whose `waited` flag is assumed to start false; unknown children and a parent already waiting return -1 before any shared state is touched.
- PagePool: a group is given back whole, as all callers do; interleavings are those of one pool, which shares nothing with the other.
- Malloc: free lists are sequences of addresses, and the bytes of headers and list links are known by their places only; calloc is left out; descriptor locks are not modelled, because calls are taken one at a time.
- Splice: the place is outside the stretch; inside it the links would close a ring, and no caller asks for that.
- ReadAt: the offset is not negative, as file_seek's assertion demands; the semaphores around the loop are in ReadersWriters.
- WriteAt: as ReadAt.
- FreeMapAllocate: the bounce buffer for the map's last sector is assumed to be had; without it the source takes the marks back in memory after writing some of them to disk.
- InodeOpen: memory for the inode is assumed to be had, because without it the source returns with filesys_lock held and the next operation fails an assertion.
- OpenFile: as InodeOpen.
- DirRemove: as InodeOpen.
- Remove: as InodeOpen.
- Create: the name has no null byte in it, as every C string, and dir_lock is free, as lock_acquire's assertion demands; buffers for directory and free-map input and output are assumed to be had, because a short read there is taken for the end of the directory.
- FileSystem: operations run one at a time; dir_lookup takes no lock.
- dir_readdir, file positions and deny-write counts: they would only add easy members.
- Sdiv64: a negation that overflows in C is taken to wrap around.
- Load: the process's pages are not freed on failure here but when it exits.
- pagedir_clear_page, pagedir_destroy and the accessed and dirty bits are not modelled.
- StartProcess: whether load succeeds is a parameter, and the pages for the line's copy and for argv are assumed to be had; of a longer line process_execute copies the first 4095 bytes.
- PushArgs: what is on the page after a store that went below it is not modelled.
- FormatOctal: only the unsigned octal conversion with the 0 flag; the rest of printf is text output.
- Device drivers, assembly, partitions, interrupt and system-call dispatch, and virtual memory are not modelled.
- Scheduling by priority and the advanced scheduler are stubs in the source.
