# FlapjackOS, verified

Dafny models of the parts of FlapjackOS whose correctness depends on many
operations at once, with proofs over every run, every schedule or every input.
`dafny verify dfyconfig.toml` checks all of it.

| component | files | main results |
|---|---|---|
| Malloc zone | `MallocModel`, `MallocProofs`, `MallocTheorems`, `MallocRuns`, `MallocEffects`, `MallocZone` | `EveryRun`, `StepAllocations`, `AllocationsDetermineZone`, `MallocGrants`, `MemalignGrants`, `MemalignKeepsInvIff`, `ReallocCorrect`, `ReallocFailsIff`, `ReallocKeepsContentsIff`, the class `MallocZone` |
| One-time initialisation guard | `Guard`, `GuardCalls` | `OneWordGuardIsSafe`, `SplitWordGuardIsSafe`, `SplitRefinesOneWord`, `ReleaseIsFinal`, `AbortReopens`, `NeverStuck` |
| Scheduler and lock hand-off | `Scheduler`, `LockHandOff` | `RoundRobin`, `RunConserves`, `WaitsExactly`, `ExhaustedWaitsExactly`, `EveryRunCounts`, `CountsLiveHoldsIff`, `UnlockUndoesLock`, `SwitchReturns` |
| Physical memory at boot | `BitArray`, `PageFrames`, `BootMemory` | `Allocate`, `AllocateOverrunsIff`, `Configure`, `WalksCleanlyIff`, `ModuleFullyTakenIff` |
| Number printing and parsing | `Printf`, `Formats`, `StringToLong`, `ParseText`, `NumberRoundTrip` | `Vsnprintf`, `ExpandAppend`, `EveryText`, `DecimalRoundTrip`, `HexRoundTrip`, `BaseRoundTripIff`, `PowerSumIsHorner` |
| Containers | `RingBuffer`, `LinkedList` | the classes refine a bounded deque and a sequence |
| Ownership | `Ownership`, `OwnershipRuns`, `PointerHeap` | `EveryRunDeletesOnce`, `UnmarkedRunDeletes`, the classes `SharedPointer` and `UniquePointer` |
| ELF segments | `ElfLoading` | `DisjointSegmentsLoad`, `OrderIsIrrelevant` |

## How the models are built

**Malloc zone.** `MallocModel` states each operation as a function from block list
to block list; the four files after it prove what those functions promise.
`MallocZone` holds the program's form: header objects with `prev`, `next`, `size`
and `inuse`, updated in place by walks and relinking, and proved to compute those
functions. Header size, zone header size and word size are unspecified constants
(both headers are positive multiples of 4 and at most 64 bytes; words have at least
32 bits). Addresses and sizes are unbounded numbers below the word limit; rounding,
the only place where the program expects a wrap, models it. `mem` maps addresses to
payload bytes. A header that is written into a payload destroys the bytes under it.
What a copy reads from the place of a header that no longer exists is left open.

**Guard.** A thread is a program counter, one atomic access is one step, a
schedule is any sequence of steps by any threads. Accesses are sequentially
consistent. A release is entered into the history at the compare-and-swap of the
initialised word; in the split-word layout the lock word is cleared one step
later. Every pair of constants in the file is a `Layout`. The one-word theorems
hold for all of them, and so do the split-word ones. The promised behaviour is that of
section 3.3.3 (One-time Construction API) of the Itanium C++ ABI. There is no fairness;
what is proved of progress is about a thread that runs alone (`NeverStuck`,
`AbortReopens`).

**Scheduler.** Threads are identities and vectors are sequences. `LockHandOff` is a
machine for one processor: `lock` and `unlock` are single steps, interrupts arrive
between any two steps while they are on, and a switch is the step that continues
another thread where it stopped. Two kinds of hold are tracked: the scheduler lock
and all others.

**Boot memory.** The multiboot map is a sequence of entries. The requirements of
`Configure` are what the code takes for granted: a map that `WalksCleanlyIff`
shows to be walked without underflow, entries inside the address space, and
modules whose frames have bits in the bitmap (`HasBitsIff`). Bases and module starts
need not be aligned.
When the break is below the start of the kernel region, no page may wrap to a
logical address at or above it; `PagesFitIff` says that this is exactly when a
released page could have no bit in the bitmap.

**Numbers.** Integers are unbounded. `IntermediatesAreBounded` and
`RoundTripStaysInRange` give the range of what the code computes on the way. Text
for `strtol` is a sequence without NUL, which ends where the sequence ends.

**Ownership.** `Ownership` is a machine on maps: pointer variables, counters, and the
deletions so far. `PointerHeap` holds the program's form: pointer objects whose
copies alias one counter object. Its `Heap` is bookkeeping for the proof; it maps the
live objects to the machine's state and says that no reference dangles.

**Where code and comments differ**, the model follows the code:

- `create` aligns the start but does not reduce the size (`CreateStaysInsideIff`).
- `realloc` copies from the new block to the old one when it moves
  (`ReallocKeepsContentsIff`, `ReallocLosesAByte`, and the memory clause of
  `MallocZone.Realloc`).
- `memalign` has a note about alignments that are not powers of two; which
  alignments are safe for every block is `CarvedHeaderAlignedIff`, which requests are
  safe in a given zone is `MemalignKeepsInvIff`, and `SixMisalignsAHeader` is a zone
  and a request beyond both. It does not check its second search for failure, nor its
  sum for wrap-around: both are requirements.
- The comment of `convert` admits base 35; the test refuses it. In base 8 the text
  "0" is not accepted as a number (`BaseRoundTripIff`, `RefusedNumerals`).
- The upper-case digit table has two letters swapped (`UpperTableGoodIff`).
- `allocate` searches with the length rounded up and marks with the length rounded
  down (`MarksWhatItNeedsIff`), and takes a span that wraps around the address space
  for a free one (`AllocateOverrunsIff`).
- A thread that vanishes while it holds a lock leaves the count raised
  (`CountsLiveHoldsIff`, `VanishWithALock`).
- The two scheduler queues are fair for runnable threads only
  (`WaitsExactly`). The exact wait of an exhausted thread is `ExhaustedWaitsExactly`.

## Model

| member | source | states |
|---|---|---|
| `MallocRuns.EveryRun` | Common/src/malloc_zone.cpp:62-365 | after any legal run of malloc, memalign, free and realloc from a fresh zone the blocks tile the zone with no gap or overlap, every header is 4-aligned, no two neighbours are both free, headers plus payloads add up to the zone, and if nothing is allocated the zone is the single initial free block again |
| `MallocRuns.StepInv` | Common/src/malloc_zone.cpp:91-365 | each operation keeps that invariant, whichever of its paths it takes |
| `MallocRuns.RunInv` | Common/src/malloc_zone.cpp:91-365 | so does every sequence of operations, from any state that has it |
| `MallocRuns.FootprintIsConstant` | Common/src/malloc_zone.cpp:30-60 | a tiling's headers and payloads sum to the zone size: no byte is lost or gained by splitting and merging |
| `MallocRuns.AllocationsAreDisjoint` | Common/src/malloc_zone.cpp:91-117 | two different allocations never share a byte and lie inside the zone |
| `MallocRuns.CreateStaysInsideIff` | Common/src/malloc_zone.cpp:62-85 | a new zone stays inside the buffer it was given if and only if the start is 4-aligned and the buffer holds both headers: the code moves an unaligned start up without shrinking the size |
| `MallocRuns.CreateOverruns` | Common/src/malloc_zone.cpp:62-85 | a zone made at address 5, with room for both headers, ends three bytes behind its buffer |
| `MallocRuns.ReallocToZeroSucceeds` | Common/src/malloc_zone.cpp:290-293 | resizing to zero frees the block, so the allocation of zero bytes that follows always succeeds |
| `MallocModel.RoundUp` | Common/src/malloc_zone.cpp:18-28 | the least multiple of 4 that is not below the request; requests that would wrap become the largest multiple of 4 |
| `MallocTheorems.BestFitCorrect` | Common/src/malloc_zone.cpp:187-217 | the search reports nothing exactly when no free block is big enough and aligned; otherwise it reports the smallest such block, and the lowest one among equals |
| `MallocTheorems.MallocFailsIff` | Common/src/malloc_zone.cpp:91-117 | malloc returns null if and only if every block is in use or smaller than the rounded request, and then changes nothing |
| `MallocTheorems.MallocGrants` | Common/src/malloc_zone.cpp:91-117 | otherwise it uses the best fit, adds exactly one allocation of at least the rounded size at an address nobody had, and freeing that allocation gives back the exact previous block list |
| `MallocTheorems.SaturatedRequestFails` | Common/src/malloc_zone.cpp:18-28 | a request whose rounding saturated fails in every zone |
| `MallocProofs.FreeUndoesTake` | Common/src/malloc_zone.cpp:219-267 | freeing a block that was just split off and taken restores the list, coalescing included |
| `MallocProofs.FreeUndoesCarve` | Common/src/malloc_zone.cpp:160-177 | the same when the block was cut out behind an alignment gap |
| `MallocTheorems.FreeCorrect` | Common/src/malloc_zone.cpp:219-267 | free removes exactly the one allocation and keeps the invariant, merging with a free neighbour on either side |
| `MallocTheorems.CutShape` | Common/src/malloc_zone.cpp:145-181 | when memalign must cut, the gap in front is a free block of at most the alignment, whose size is a multiple of 4 if the alignment is, and the returned address is a multiple of the alignment, for every alignment |
| `MallocTheorems.CutInvIff` | Common/src/malloc_zone.cpp:145-181 | a cut keeps the zone invariant if and only if the gap in front is a multiple of 4 |
| `MallocTheorems.MemalignKeepsInvIff` | Common/src/malloc_zone.cpp:119-185 | an aligned request that one of the two searches can serve gets a multiple of the alignment, and keeps the invariant if and only if no cut is needed or the gap in the block it picks is a multiple of 4 |
| `MallocTheorems.MemalignGrants` | Common/src/malloc_zone.cpp:119-185 | then it yields a new allocation of at least the rounded size, and freeing it restores the exact previous block list |
| `MallocTheorems.AlignedSafeIff` | Common/src/malloc_zone.cpp:135-155 | that condition block by block: a free aligned block of the rounded size, or a best fit for the padded size, whose sum does not wrap, in which the gap is a multiple of 4 |
| `MallocTheorems.RemIsModulo` | Common/src/malloc_zone.cpp:152 | the model's remainder, by repeated subtraction, is the modulo of the source |
| `MallocTheorems.PowerOfTwoIsSafe` | Common/src/malloc_zone.cpp:119-185 | for every power of two it is enough that one free block holds the rounded size, a header and the alignment |
| `MallocTheorems.BigAlignIsSafe` | Common/src/malloc_zone.cpp:119-185 | the same for every alignment that is a multiple of 4 |
| `MallocTheorems.SmallAlignIsSafe` | Common/src/malloc_zone.cpp:129-137 | alignments 1 and 2 need only a free block of the rounded size, since every payload is 4-aligned |
| `MallocTheorems.CarvedHeaderAlignedIff` | Common/src/malloc_zone.cpp:149-155 | a cut keeps headers 4-aligned for every block if and only if the alignment is a multiple of 4; with alignment 6, for one, it does not |
| `MallocRuns.SixMisalignsAHeader` | Common/src/malloc_zone.cpp:135-157 | a fresh zone in which memalign finds no block for alignment 6, must cut, and puts the new header at an address that is 2 modulo 4 |
| `MallocTheorems.ReallocCorrect` | Common/src/malloc_zone.cpp:269-365 | on each success path the invariant holds and the old allocation is replaced by one of at least the new size, with every other allocation unchanged |
| `MallocTheorems.ReallocFailsIff` | Common/src/malloc_zone.cpp:269-365 | null if and only if the block is too small, growing forward and merging backward are both impossible and no free block is big enough; then nothing changed |
| `MallocTheorems.ReallocStaysIff` | Common/src/malloc_zone.cpp:300-327 | the allocation keeps its address if and only if it is big enough already or a free block behind it makes it so |
| `MallocZoneHeap.ReallocKeepsContentsIff` | Common/src/malloc_zone.cpp:269-365 | a successful realloc leaves the caller's bytes, whatever they are, in the block it returns if and only if the block was big enough, was empty, or could grow over a free block behind it: both moving paths copy from the new block to the old one |
| `MallocZoneHeap.ReallocLosesAByte` | Common/src/malloc_zone.cpp:329-335 | a reachable zone, two allocations of four bytes in a fresh one, and a memory, in which resizing the first to eight bytes loses its first byte |
| `MallocTheorems.ShrinkOk` | Common/src/malloc_zone.cpp:300-304 | shrinking in place gives the tail back and keeps the address |
| `MallocTheorems.GrowThenShrinkOk` | Common/src/malloc_zone.cpp:306-359 | swallowing a free neighbour on either side and trimming replaces exactly this allocation |
| `MallocTheorems.MoveOk` | Common/src/malloc_zone.cpp:329-335 | a new allocation followed by freeing the old one replaces exactly this allocation |
| `MallocEffects.StepAllocations` | Common/src/malloc_zone.cpp:91-365 | what every legal operation does to the set of allocations, in the caller's terms: malloc and memalign add one of the requested size up to rounding and an unsplittable rest, at an address with the alignment; free removes exactly the one at the pointer; realloc exchanges one for another; all others stay as they are |
| `MallocEffects.AllocationsDetermineZone` | Common/src/malloc_zone.cpp:30-60 | two zones over the same region with the same allocations have the same block list: free space is always fully merged, whatever the history |
| `MallocEffects.MallocCorrect` | Common/src/malloc_zone.cpp:91-117 | malloc returns null and changes nothing, or adds one allocation whose payload is the pointer and whose size is between the request and the request plus 3 and a header |
| `MallocEffects.MemalignCorrect` | Common/src/malloc_zone.cpp:119-185 | the same for memalign, at a multiple of the alignment; if some free block is aligned and big enough, the best fit among those is taken; alignment zero is malloc |
| `MallocEffects.FreeRemoves` | Common/src/malloc_zone.cpp:219-267 | free removes the allocation at the pointer and no other, and null is nobody's |
| `MallocEffects.ReallocMeets` | Common/src/malloc_zone.cpp:269-365 | for every pointer and size: null is malloc, null returned means nothing changed and the size was not zero, and otherwise the allocation at the pointer is exchanged for one at the result whose size is between the request and the request plus 3 and a header |
| `MallocEffects.ResizeCorrect` | Common/src/malloc_zone.cpp:295-365 | the same for the block that the pointer leads to |
| `MallocEffects.ReallocWay` | Common/src/malloc_zone.cpp:300-362 | the order of the ways: the block stays if it is big enough or a free block behind it makes it so; else it moves to the best fit if any block fits; else it merges with the free block before it |
| `MallocEffects.ExchangeForEmpty` | Common/src/malloc_zone.cpp:290-293 | resizing to zero exchanges the allocation for an empty one and never returns null |
| `MallocZoneHeap.AbsorbNext` | Common/src/malloc_zone.cpp:50-58 | unlinking a header from the doubly linked list merges its bytes into the one before it, and prev and next still mirror each other |
| `MallocZoneHeap.CarveAfter` | Common/src/malloc_zone.cpp:30-49 | writing a header inside a block's payload splits the block in two, correctly linked both ways |
| `MallocZoneHeap.ConsiderSplitting` | Common/src/malloc_zone.cpp:30-60 | the list after a split is that of the model, and only bytes behind the kept part change |
| `MallocZoneHeap.TakeBlock` | Common/src/malloc_zone.cpp:110-116 | split and mark in use; the bytes handed out and all bytes outside the block are untouched |
| `MallocZoneHeap.FindBestFit` | Common/src/malloc_zone.cpp:187-217 | the pointer walk finds the block that the best-fit search on the block list finds |
| `MallocZoneHeap.HeaderOf` | Common/src/malloc_zone.cpp:225-238 | a live payload address leads to the header whose payload it is |
| `MallocZoneHeap.FreeBlock` | Common/src/malloc_zone.cpp:240-267 | clearing the flag and merging both ways gives the model's list, without new headers |
| `MallocZoneHeap.CutBlock` | Common/src/malloc_zone.cpp:145-184 | the relinking around an alignment gap gives the model's list and address, touching only the cut block |
| `MallocZoneHeap.TakeAligned` | Common/src/malloc_zone.cpp:128-184 | for every alignment, an already aligned block is preferred to a cut, with the outcome of the model |
| `MallocZoneHeap.GrowForward` | Common/src/malloc_zone.cpp:306-327 | merging forward and trimming gives the model's list and leaves the caller's bytes alone |
| `MallocZoneHeap.GrowBackward` | Common/src/malloc_zone.cpp:337-362 | merging backward, copying and trimming gives the model's list; the new payload holds exactly what the copy left there |
| `MallocZoneHeap.MallocZone.constructor` | Common/src/malloc_zone.cpp:62-85 | one free block behind the zone header |
| `MallocZoneHeap.MallocZone.Malloc` | Common/src/malloc_zone.cpp:91-117 | the header list moves to the model's outcome, links and invariant hold, and the bytes of every live allocation are unchanged |
| `MallocZoneHeap.MallocZone.Memalign` | Common/src/malloc_zone.cpp:119-185 | likewise, for aligned requests; alignment zero is malloc |
| `MallocZoneHeap.MallocZone.Free` | Common/src/malloc_zone.cpp:219-267 | likewise for free; null is ignored and no byte changes |
| `MallocZoneHeap.MallocZone.ShrinkInPlace` | Common/src/malloc_zone.cpp:300-304 | keeps the first bytes of the caller and all bytes of others |
| `MallocZoneHeap.MallocZone.GrowIntoNext` | Common/src/malloc_zone.cpp:306-327 | keeps all bytes of the caller and of others |
| `MallocZoneHeap.MallocZone.MergeIntoPrevious` | Common/src/malloc_zone.cpp:337-362 | keeps the bytes of all others, and says which bytes the new payload holds |
| `MallocZoneHeap.MallocZone.MoveAway` | Common/src/malloc_zone.cpp:329-335 | null if and only if malloc is; otherwise the outcome is malloc then free, the bytes of all others are kept, and the new payload holds what it held before |
| `MallocZoneHeap.MallocZone.Realloc` | Common/src/malloc_zone.cpp:269-365 | the model's outcome; others keep their bytes; an allocation that stays keeps its own; one that moves holds what the code's copy leaves; null changes no byte |
| `Guard.OneWordGuardIsSafe` | Common/src/libcxxrt/guard.cc:118-193 | for any threads, any schedule and every one-word layout: at most one thread holds the guard, at most one release happens, acquire answers 0 only after it and 1 only before it, a second 1 needs an abort in between, and no assertion fails |
| `Guard.SplitWordGuardIsSafe` | Common/src/libcxxrt/guard.cc:118-193 | the same with separate initialised and lock words, where a release takes two steps |
| `Guard.SplitRefinesOneWord` | Common/src/libcxxrt/guard.cc:118-193 | every run of the split-word machine is matched by a run of the one-word machine with the same history of returns, releases and aborts |
| `Guard.Step2Simulates` | Common/src/libcxxrt/guard.cc:118-193 | each step of the split-word machine is no step or one step of the one-word machine |
| `Guard.Step1Inv` | Common/src/libcxxrt/guard.cc:118-193 | the one-word invariant: the word says who owns the guard and agrees with the history |
| `Guard.Step2Inv` | Common/src/libcxxrt/guard.cc:118-193 | the split-word invariant: the lock word is set exactly while one thread owns it, also during the race check and between the two writes of a release |
| `Guard.Run2Inv` | Common/src/libcxxrt/guard.cc:118-193 | every reachable split-word state has it |
| `Guard.PromiseIsOneTime` | Common/src/libcxxrt/guard.cc:113-193 | a history that an observer automaton accepts has all four one-time properties |
| `GuardCalls.ReleaseIsFinal` | Common/src/libcxxrt/guard.cc:118-193 | in every run, once a holder has released, every later acquire in every continuation answers 0 and nobody ever holds the guard again |
| `GuardCalls.SplitReleaseIsFinal` | Common/src/libcxxrt/guard.cc:118-193 | the same with separate words |
| `GuardCalls.AbortReopens` | Common/src/libcxxrt/guard.cc:118-193 | in every run, once a holder has aborted, a thread that runs alone through acquire is answered 1 within four steps and holds the guard |
| `GuardCalls.SplitAbortReopens` | Common/src/libcxxrt/guard.cc:118-193 | the same with separate words, within six steps |
| `GuardCalls.NeverStuck` | Common/src/libcxxrt/guard.cc:118-193 | in every reachable state in which nobody owns the guard, a thread that runs alone through acquire is answered within four steps: 0 if there was a release and 1 if not |
| `GuardCalls.SplitNeverStuck` | Common/src/libcxxrt/guard.cc:118-193 | the same with separate words, within six steps |
| `GuardCalls.LockedIsOwned1` | Common/src/libcxxrt/guard.cc:118-193 | the word says locked only while some thread owns the guard: no run leaves it locked behind |
| `GuardCalls.LockedIsOwned2` | Common/src/libcxxrt/guard.cc:118-193 | the same for the lock word |
| `GuardCalls.InitMeans` | Common/src/libcxxrt/guard.cc:180-193 | the initialised word is set exactly when there was a release |
| `GuardCalls.Holder1` | Common/src/libcxxrt/guard.cc:165-193 | a release sets the initialised word, an abort clears the word, and both leave the holder outside |
| `GuardCalls.Holder2` | Common/src/libcxxrt/guard.cc:165-193 | the same with separate words, where a release has the lock word still to clear |
| `GuardCalls.FirstByteTells` | Common/src/libcxxrt/guard.cc:66-111 | in every layout the first byte of the guard, which compiled code reads, is set when the object is initialised and clear while it is not or is locked, and the constants fit their type |
| `Scheduler.YieldRotates` | Kernel/src/scheduler.cpp:41-49 | a yield rotates the ring of current, runnable and exhausted threads by one, whether or not the queues swap |
| `Scheduler.YieldsRotate` | Kernel/src/scheduler.cpp:41-49 | n yields rotate it by n |
| `Scheduler.RoundRobin` | Kernel/src/scheduler.cpp:41-49 | with n others, n + 1 yields run each of them once, in order, and restore the current thread and the queue |
| `Scheduler.ApplyConserves` | Kernel/src/scheduler.cpp:30-86 | add, yield and vanish change the multiset of threads by the added or vanished one only |
| `Scheduler.RunConserves` | Kernel/src/scheduler.cpp:30-86 | over every run no thread is lost or duplicated |
| `Scheduler.WaitsExactly` | Kernel/src/scheduler.cpp:30-86 | a thread at position i of the runnable queue runs after exactly i + 1 switches, however many adds and vanishes interleave |
| `Scheduler.ExhaustedWaitsExactly` | Kernel/src/scheduler.cpp:30-86 | in every run, a thread at position i of the exhausted queue waits until a switch finds the runnable queue drained, and is current exactly i + 1 switches from there on, counting that one; if the runnable queue never drains the exhausted queue keeps every thread it has |
| `Scheduler.DrainsIff` | Kernel/src/scheduler.cpp:72-86 | the runnable queue drains if and only if, at some point of the run, there have been more switches than it had threads at first plus adds |
| `Scheduler.AddsStarveExhausted` | Kernel/src/scheduler.cpp:30-86 | so the wait has no bound: with a thread added before each yield nobody in the exhausted queue ever runs |
| `Scheduler.SchedulerUnlocked.constructor` | Kernel/include/scheduler.hpp:46-50 | no threads |
| `Scheduler.SchedulerUnlocked.Add` | Kernel/src/scheduler.cpp:30-33 | the queues become those of the model's add |
| `Scheduler.SchedulerUnlocked.Begin` | Kernel/src/scheduler.cpp:35-39 | only the current thread is set |
| `Scheduler.SchedulerUnlocked.SwapIfNecessary` | Kernel/src/scheduler.cpp:72-78 | afterwards somebody is runnable and the joined queue is the same |
| `Scheduler.SchedulerUnlocked.TakeCurrentFromRunnable` | Kernel/src/scheduler.cpp:66-70 | the head of the runnable queue becomes current |
| `Scheduler.SchedulerUnlocked.Yield` | Kernel/src/scheduler.cpp:41-49 | the queues become those of the model's yield, and a switch happens exactly when there is a current thread and somebody waits |
| `Scheduler.SchedulerUnlocked.Vanish` | Kernel/src/scheduler.cpp:51-59 | the current thread is gone and the next one is current |
| `LockHandOff.EveryRunCounts` | Kernel/src/scheduler.cpp:9-124 | in every run the nesting count is the sum of all outstanding holds, those of vanished threads included, plus one while the scheduler lock is held; interrupts are on exactly when it is zero; and the reentrancy assertion never fires although the lock is released by another thread than took it |
| `LockHandOff.StepKeeps` | Kernel/src/scheduler.cpp:93-124 | each step of locking, interrupt dispatch, scheduler entry, switch and exit keeps the invariant behind that |
| `LockHandOff.CountsLiveHoldsIff` | Kernel/src/scheduler.cpp:111-119 | the count is that of the live threads alone if and only if every vanishing thread held no other lock |
| `LockHandOff.VanishWithALock` | Kernel/src/scheduler.cpp:111-119 | a run from boot in which a thread vanishes with a lock: nobody alive holds one, and the count is 2 |
| `LockHandOff.LeakIsForever` | Kernel/src/scheduler.cpp:111-119 | a thread that vanishes with a hold leaves interrupts off in every continuation |
| `LockHandOff.YieldKeeps` | Kernel/src/scheduler.cpp:105-109 | a yield that switches keeps the invariant and leaves the scheduler lock held by the next thread, which was suspended in its own yield or not started and gives the lock back next; the yielder is suspended |
| `LockHandOff.VanishKeeps` | Kernel/src/scheduler.cpp:111-124 | so does a vanish, after which the vanished thread is gone |
| `LockHandOff.UnlockUndoesLock` | Common/src/interrupt_lock.cpp:9-21 | taking a lock, or being interrupted, and giving the lock back restores the whole machine state exactly, interrupt flag included |
| `LockHandOff.UnlockEffect` | Common/src/interrupt_lock.cpp:16-21 | giving back takes one from the count and from the running thread's holds, changes nothing else, and turns interrupts on exactly at zero |
| `LockHandOff.CallReturns` | Kernel/src/scheduler.cpp:93-124 | a call of the locked scheduler that switches to nobody leaves locks, count and interrupts exactly as they were, and does what the unlocked call does |
| `LockHandOff.SwitchReturns` | Kernel/src/scheduler.cpp:93-124 | a yield, or a vanish without other locks, that switches leaves the count, the interrupt flag and all holds exactly as they were once the next thread has left the scheduler, and the first thread of the queue runs |
| `LockHandOff.InterruptLock.Lock` | Common/src/interrupt_lock.cpp:9-14 | the count goes up, and interrupts go off on the way from zero |
| `LockHandOff.InterruptLock.Unlock` | Common/src/interrupt_lock.cpp:16-21 | the count goes down, and interrupts go on at zero |
| `LockHandOff.LockKeeps` | Kernel/include/generic_interrupt_dispatcher.hpp:46-61 | taking and giving back other locks keeps the invariant; an interrupt finds the running thread outside the scheduler with the count at zero, and leaves the count at one, interrupts off and the hold with that thread |
| `BitArray.BitArray.Set` | Common/include/common/bit_array.hpp:34-37 | exactly one bit of the packed bytes becomes one |
| `BitArray.BitArray.Clear` | Common/include/common/bit_array.hpp:39-42 | exactly one bit becomes zero |
| `BitArray.BitArray.SetAll` | Common/include/common/bit_array.hpp:29-32 | every bit becomes one |
| `BitArray.BitArray.Test` | Common/include/common/bit_array.hpp:44-47 | reads the bit that set and clear write |
| `BitArray.SetOne` | Common/include/common/bit_array.hpp:102-112 | or-ing with a mask changes the bit of that mask and no other bit of the byte |
| `BitArray.ClearOne` | Common/include/common/bit_array.hpp:102-112 | and-ing with the complement clears that bit and no other |
| `PageFrames.FreeCountUpdate` | Kernel/include/concrete_page_frame_allocator.hpp:58-78 | the number of clear bits after one bit changes |
| `PageFrames.MarkRunCounts` | Kernel/include/concrete_page_frame_allocator.hpp:28-31 | marking a free run takes exactly its frames from the number of free ones |
| `PageFrames.FramesOf` | Kernel/include/concrete_page_frame_allocator.hpp:26-31 | the search looks for the least positive number of frames that covers the length, the marking takes the greatest number that fits into it, and both are n for n whole pages |
| `PageFrames.WholePages` | Kernel/include/concrete_page_frame_allocator.hpp:20-36 | for whole pages the two agree, so the frames found are the frames taken |
| `PageFrames.MarksWhatItNeedsIff` | Kernel/include/concrete_page_frame_allocator.hpp:26-31 | allocate marks as many frames as it searched for if and only if the length is a positive multiple of the page size |
| `PageFrames.OneByteIsNotTaken` | Kernel/include/concrete_page_frame_allocator.hpp:20-36 | a request for one byte finds a free frame and marks none |
| `PageFrames.AllocateOverrunsIff` | Kernel/include/concrete_page_frame_allocator.hpp:20-36 | the first frame that the search takes makes it mark past the end of the bitmap if and only if the span of the last frame wraps around the address space and no run is long enough |
| `PageFrames.AcceptedOverrunsIff` | Kernel/include/concrete_page_frame_allocator.hpp:22-31 | for the frame it takes first, that is if and only if there is no long enough run |
| `PageFrames.HugeRequestOverruns` | Kernel/include/concrete_page_frame_allocator.hpp:20-56 | a request for the whole address space but one page, with two frames, does so |
| `PageFrames.NoWrap` | Kernel/include/concrete_page_frame_allocator.hpp:38-56 | no frame before the first long enough run has a span that wraps |
| `PageFrames.PageFrameAllocator.constructor` | Kernel/include/concrete_page_frame_allocator.hpp:15-18 | every frame is in use and the count is zero |
| `PageFrames.PageFrameAllocator.MarkAllAsUsed` | Kernel/include/concrete_page_frame_allocator.hpp:100-104 | likewise |
| `PageFrames.PageFrameAllocator.IsFree` | Kernel/include/concrete_page_frame_allocator.hpp:80-88 | a clear bit; frames past the capacity are not free |
| `PageFrames.PageFrameAllocator.AllocateSpecific` | Kernel/include/concrete_page_frame_allocator.hpp:58-69 | takes this frame and no other, says whether it was free, and keeps count equal to the number of clear bits |
| `PageFrames.PageFrameAllocator.Deallocate` | Kernel/include/concrete_page_frame_allocator.hpp:71-78 | frees this frame and no other; freeing twice counts once |
| `PageFrames.PageFrameAllocator.IsSpanFree` | Kernel/include/concrete_page_frame_allocator.hpp:38-56 | every frame that the span touches is free, or the end of the span wraps around the address space |
| `PageFrames.PageFrameAllocator.TakeSpan` | Kernel/include/concrete_page_frame_allocator.hpp:28-31 | marks exactly the whole frames of a free span and counts them |
| `PageFrames.PageFrameAllocator.Allocate` | Kernel/include/concrete_page_frame_allocator.hpp:20-36 | unless it would overrun: the lowest frame above zero that starts a long enough free run, marking that run's frames and no others; 0 and no change exactly when there is no such run; for n whole pages, exactly the lowest n free frames in a row above frame zero become used |
| `BootMemory.Configure` | Kernel/include/page_frame_allocator_configuration_operation.hpp:33-82 | a frame is free if and only if a page of an available map entry starts in it, the logical address of that page, computed with wrap-around, is between the break and the end of the kernel region, and no module takes the frame; with page-aligned entries, if and only if the frame lies wholly in an available entry and so on |
| `BootMemory.MarkUnavailableMemory` | Kernel/include/page_frame_allocator_configuration_operation.hpp:46-70 | exactly the enumerated pages inside the region become free |
| `BootMemory.MarkModulesMemory` | Kernel/include/page_frame_allocator_configuration_operation.hpp:72-82 | exactly the frames that some module takes become used |
| `BootMemory.MarkModule` | Kernel/include/page_frame_allocator_configuration_operation.hpp:75-80 | the stride over one module |
| `BootMemory.HasBitsIff` | Kernel/include/page_frame_allocator_configuration_operation.hpp:75-80 | the stride stays inside the bitmap, as the bitmap asserts, if and only if the module's end, less the offset of its start in a page, does |
| `BootMemory.ModuleFullyTakenIff` | Kernel/include/page_frame_allocator_configuration_operation.hpp:75-80 | the stride reaches every frame that the module touches if and only if the offset of its start in a page is at most that of its last byte |
| `BootMemory.TakesMeans` | Kernel/include/page_frame_allocator_configuration_operation.hpp:75-80 | the frames taken are exactly those of the addresses at multiples of the page size from the start of the module to its end |
| `BootMemory.StraddlingModuleLosesAFrame` | Kernel/include/page_frame_allocator_configuration_operation.hpp:75-80 | a module of two bytes across a page boundary keeps only its first frame |
| `BootMemory.AlignedModuleTakes` | Kernel/include/page_frame_allocator_configuration_operation.hpp:75-80 | for a page-aligned start it takes exactly the frames that start inside the module |
| `BootMemory.ReleaseAllMeans` | Kernel/include/page_frame_allocator_configuration_operation.hpp:57-64 | a frame stays used unless one of the enumerated pages in the region is its own |
| `BootMemory.PagesFitIff` | Kernel/include/page_frame_allocator_configuration_operation.hpp:66-70 | every page that will be released has a bit in the bitmap if and only if no page of the map wraps to a logical address at or above the break, which cannot happen when the break is not below the kernel |
| `BootMemory.RegionIs` | Kernel/include/page_frame_allocator_configuration_operation.hpp:66-70 | a page is usable exactly when its logical address is at or above the break and less than 32 MB above the kernel's start, or wraps to one above the break; with the break inside the region, exactly from the break to 32 MB |
| `BootMemory.PagesFromMean` | Kernel/include/multiboot_memory_map_page_frame_enumerator.hpp:32-81 | the enumerated pages are exactly the whole pages of the available entries, counted from each entry's base |
| `BootMemory.ReleasedIsUsable` | Kernel/include/page_frame_allocator_configuration_operation.hpp:57-70 | with page-aligned entries the released frames are those wholly inside an available entry and the region |
| `BootMemory.ReleasesOwnFramesIff` | Kernel/include/multiboot_memory_map_page_frame_enumerator.hpp:41-55 | every page of an entry starts in a frame of that entry if and only if the base is page-aligned |
| `BootMemory.UnalignedEntryReleasesTooMuch` | Kernel/include/page_frame_allocator_configuration_operation.hpp:57-64 | wherever the kernel is, an entry at 4095 makes frame 0 free, of which it has one byte |
| `BootMemory.WalksCleanlyIff` | Kernel/include/multiboot_memory_map_page_frame_enumerator.hpp:32-81 | the walk never underflows its remaining length and never runs off the map if and only if every later available entry is at least a page long and the last one is a multiple of the page size |
| `BootMemory.UncleanWalks` | Kernel/include/multiboot_memory_map_page_frame_enumerator.hpp:32-81 | a last entry of a page and a byte, and a later entry of one byte, are not walked cleanly |
| `BootMemory.PageEnumerator.constructor` | Kernel/include/multiboot_memory_map_page_frame_enumerator.hpp:13-30 | all pages are still to come |
| `BootMemory.PageEnumerator.HasNext` | Kernel/include/multiboot_memory_map_page_frame_enumerator.hpp:32-39 | true exactly when a page is still to come |
| `BootMemory.PageEnumerator.GetNext` | Kernel/include/multiboot_memory_map_page_frame_enumerator.hpp:41-55 | hands out the next page and leaves the rest |
| `BootMemory.PageEnumerator.ScanToNextValidEntry` | Kernel/include/multiboot_memory_map_page_frame_enumerator.hpp:64-70 | moves to an entry with a whole page without losing one |
| `BootMemory.PageEnumerator.GetNextValidEntry` | Kernel/include/multiboot_memory_map_page_frame_enumerator.hpp:72-81 | the first available entry behind the given one, or none |
| `StringToLong.PowerSumIsHorner` | Common/include/common/string_to_long_converter.hpp:120-157 | for every base and digit string, the right-to-left sum of digit times power is the Horner value |
| `StringToLong.IntermediatesAreBounded` | Common/include/common/string_to_long_converter.hpp:120-157 | no power and no partial sum exceeds the final value, when the first digit is not zero |
| `StringToLong.StringToLongConverter.Convert` | Common/include/common/string_to_long_converter.hpp:12-39 | null strings and bases outside 0 to 34 give 0 and leave the end pointer alone; otherwise the signed value of the longest digit prefix, with the end pointer behind it, or 0 and the start when there are no digits |
| `StringToLong.StringToLongConverter.EatSign` | Common/include/common/string_to_long_converter.hpp:54-67 | skips one sign and returns its factor |
| `StringToLong.StringToLongConverter.EatBasePrefix` | Common/include/common/string_to_long_converter.hpp:69-100 | the base in force and the length of its prefix |
| `StringToLong.StringToLongConverter.ScanToEndOfNumber` | Common/include/common/string_to_long_converter.hpp:102-118 | the end of the longest run of digits of the base |
| `StringToLong.StringToLongConverter.ParseNumberDigits` | Common/include/common/string_to_long_converter.hpp:120-135 | the loop from the last digit down computes the Horner value |
| `StringToLong.StringToLongConverter.PowLong` | Common/include/common/string_to_long_converter.hpp:150-157 | the power, by repeated multiplication |
| `ParseText.EveryText` | Common/include/common/string_to_long_converter.hpp:12-157 | every text is a sign, a base prefix, digits and a rest that starts with no digit, and for every admitted base strtol returns the signed value of those digits and the position behind them, or 0 and the start if there are none |
| `ParseText.ParseDigits` | Common/include/common/string_to_long_converter.hpp:12-118 | digits behind a plus, a minus or nothing, and before any other text, are converted in every base, which is 10 when left open, and nothing behind them is read |
| `ParseText.ParseOctal` | Common/include/common/string_to_long_converter.hpp:69-100 | a zero before octal digits is a prefix when the base is 8 or open; alone it is not accepted as a number |
| `ParseText.ParseHex` | Common/include/common/string_to_long_converter.hpp:69-100 | "0x" before hexadecimal digits is a prefix when the base is 16 or open; alone it is not accepted either |
| `ParseText.ParseNothing` | Common/include/common/string_to_long_converter.hpp:22-39 | without a digit behind the sign nothing is consumed, not even the sign |
| `ParseText.DigitValues` | Common/include/common/string_to_long_converter.hpp:102-148 | decimal digits have their value, letters of either case count from ten on, nothing else is a digit, and a character is a digit of a base exactly when its value is below it |
| `Printf.Vsnprintf` | Common/src/stdio.cpp:141-209 | for every format without %p: the buffer holds the first size - 1 storable characters of the unlimited output and a terminating NUL inside it, bytes past the size are untouched, and the return value is the length of the unlimited output whatever the size |
| `Printf.Writer.InsertChar` | Common/src/stdio.cpp:35-44 | one more character of output, stored if it is printable and there is room |
| `Printf.Writer.InsertString` | Common/src/stdio.cpp:46-60 | a string's worth of it |
| `Printf.Writer.InsertUint` | Common/src/stdio.cpp:90-109 | the numeral of the value |
| `Printf.Writer.InsertInt` | Common/src/stdio.cpp:62-88 | a minus sign for negative values, then the numeral |
| `Printf.Writer.Convert` | Common/src/stdio.cpp:170-202 | what each conversion letter produces; an unknown letter produces itself |
| `Printf.Writer.Feed` | Common/src/stdio.cpp:155-205 | one character of the format leaves the output still to come unchanged in total |
| `Printf.Reverse` | Common/src/stdio.cpp:26-33 | the swap loop reverses the characters between the two positions and no others |
| `Printf.ProduceDigits` | Common/src/stdio.cpp:97-101 | the remainder loop writes the digits last one first |
| `Printf.FormatUnsigned` | Common/src/stdio.cpp:90-109 | after the reversal the scratch buffer, read up to its NUL, is the numeral, most significant digit first |
| `Printf.ReadString` | Common/src/stdio.cpp:54-57 | everything up to the first NUL |
| `Printf.ReversedProduced` | Common/src/stdio.cpp:97-104 | reversing what the loop produces gives the significant digits in order |
| `Printf.ScratchSufficesIff` | Common/src/stdio.cpp:62-109 | the numeral of a 32-bit value and its NUL fit the 32-character scratch buffer if and only if the base is at least 3 or the value has at most 31 bits |
| `Formats.ExpandAppend` | Common/src/stdio.cpp:141-209 | the output of two formats one after the other is the output of the first and then that of the second, each with its own arguments, also when the first ends inside a directive |
| `Formats.PlainText` | Common/src/stdio.cpp:161-169 | text without a percent sign prints itself |
| `Formats.SignedDirective` | Common/src/stdio.cpp:172-174 | %d prints a minus for negative numbers and the decimal numeral, without leading zeros, that strtol reads back |
| `Formats.UnsignedDirective` | Common/src/stdio.cpp:176-178 | %u prints the decimal numeral, without leading zeros, that strtol reads back |
| `Formats.HexDirectives` | Common/src/stdio.cpp:180-186 | %x and %X print the hexadecimal numeral in lower and in upper case, without leading zeros, and strtol reads both back |
| `Formats.TextDirectives` | Common/src/stdio.cpp:192-202 | %s prints its string, or (null) for a null pointer, %c its character, and a letter that is no directive, the percent sign included, prints itself |
| `Formats.NumeralIsUnique` | Common/src/stdio.cpp:90-109 | a string of a table's digits without leading zeros is the one numeral that is printed for its value: printing undoes reading |
| `Printf.StoredAppend` | Common/src/stdio.cpp:46-60 | what is stored of two strings one after the other is what is stored of each |
| `Formats.StoredIff` | Common/src/stdio.cpp:35-44 | all of a string is stored exactly when its characters are printable, newlines or tabs |
| `NumberRoundTrip.DecimalRoundTrip` | Common/src/stdio.cpp:62-88 | for every int except the most negative, strtol in base 10 reads the "%d" output back, to its end |
| `NumberRoundTrip.HexRoundTrip` | Common/src/stdio.cpp:90-109 | for every unsigned value, strtol in base 16 reads "%x" and "%X" output back, to its end |
| `NumberRoundTrip.RoundTripStaysInRange` | Common/include/common/string_to_long_converter.hpp:120-157 | no intermediate of that reading exceeds the value itself |
| `NumberRoundTrip.ParseNumeral` | Common/include/common/string_to_long_converter.hpp:12-39 | in every base below 35, a string of digits with or without a minus is converted to its value and consumed, except a lone zero in base 8; bases from 35 on are refused |
| `NumberRoundTrip.BaseRoundTripIff` | Common/include/common/string_to_long_converter.hpp:12-39 | in every base with a correct digit table, converting the printed numeral gives the number back if and only if the base is below 35 and the number is not zero in base 8 |
| `NumberRoundTrip.RefusedNumerals` | Common/include/common/string_to_long_converter.hpp:18-20 | the numeral of 1 in base 35 and that of 0 in base 8 are refused |
| `NumberRoundTrip.FormatThenConvert` | Common/include/common/string_to_long_converter.hpp:12-39 | the same through the scratch buffer and the converter object |
| `NumberRoundTrip.LowerTableIsGood` | Common/src/stdio.cpp:23 | the lower-case table is correct for every base up to 36 |
| `NumberRoundTrip.NumeralValue` | Common/src/stdio.cpp:90-109 | a numeral printed with a correct digit table has the printed value |
| `NumberRoundTrip.UpperTableGoodIff` | Common/src/stdio.cpp:24 | the upper-case table has O and M swapped: it is correct if and only if the base is at most 22 |
| `NumberRoundTrip.PrintThenParse` | Common/src/stdio.cpp:141-209 | printing into a buffer and parsing the buffer gives the number back and consumes all of it |
| `RingBuffer.SlotIsModular` | Common/include/common/ring_buffer.hpp:69-110 | the k-th element is at front + k modulo the capacity, reached by k circular steps |
| `RingBuffer.NextIsModular` | Common/include/common/ring_buffer.hpp:69-99 | stepping forward is adding 1 modulo the capacity, and stepping back undoes it |
| `RingBuffer.SlotsDiffer` | Common/include/common/ring_buffer.hpp:102-110 | different positions have different slots, across the wrap point |
| `RingBuffer.RingBuffer.constructor` | Common/include/common/ring_buffer.hpp:124 | empty |
| `RingBuffer.RingBuffer.IndexAt` | Common/include/common/ring_buffer.hpp:102-110 | the walk ends at the slot of that position |
| `RingBuffer.RingBuffer.At` | Common/include/common/ring_buffer.hpp:228-232 | the element at that position |
| `RingBuffer.RingBuffer.Back` | Common/include/common/ring_buffer.hpp:213-217 | the last element, through the stored back position |
| `RingBuffer.RingBuffer.PushBack` | Common/include/common/ring_buffer.hpp:267-282 | appends, or refuses and changes nothing exactly when full |
| `RingBuffer.RingBuffer.PushFront` | Common/include/common/ring_buffer.hpp:287-302 | prepends, or refuses and changes nothing exactly when full |
| `RingBuffer.RingBuffer.PopBack` | Common/include/common/ring_buffer.hpp:306-315 | drops the last element |
| `RingBuffer.RingBuffer.PopFront` | Common/include/common/ring_buffer.hpp:319-328 | drops the first element |
| `RingBuffer.RingBuffer.Insert` | Common/include/common/ring_buffer.hpp:334-363 | sequence insertion at any index, across the wrap point |
| `RingBuffer.RingBuffer.Remove` | Common/include/common/ring_buffer.hpp:367-394 | sequence deletion at any index, across the wrap point |
| `LinkedList.LinkedList.constructor` | Common/include/common/linked_list.hpp:21 | empty |
| `LinkedList.LinkedList.At` | Common/include/common/linked_list.hpp:52-58 | the element at that position |
| `LinkedList.LinkedList.PushBack` | Common/include/common/linked_list.hpp:24-36 | appends, with every prev and next link right except the head's prev |
| `LinkedList.LinkedList.PushFront` | Common/include/common/linked_list.hpp:39-48 | prepends, and repairs the prev of a head that a removal left stale |
| `LinkedList.LinkedList.Remove` | Common/include/common/linked_list.hpp:82-107 | returns the element and deletes it from the sequence, from a state where the head's prev may be stale |
| `LinkedList.NodeAt` | Common/include/common/linked_list.hpp:136-143 | the node at that position |
| `Ownership.EveryRunDeletesOnce` | Common/include/common/shared_pointer.hpp:14-151 | in every run of constructions, copies, moves, assignments, transfers and destructions, each counter is the number of its live owners and an object has been deleted exactly once if it has no owner left and was not leaked on purpose, and never otherwise |
| `Ownership.ExecInv` | Common/include/common/shared_pointer.hpp:14-151 | each operation keeps the accounting behind that, also between two owners of one object and in self-assignment |
| `Ownership.OwnedMeansPointed` | Common/include/common/shared_pointer.hpp:135-151 | being accounted to a control block or a unique pointer is the same as being pointed to by a variable |
| `Ownership.TransferForgetsLeak` | Common/include/common/unique_pointer.hpp:88-105 | an object marked to be leaked survives its unique pointer, but is deleted if it was first transferred to a shared one |
| `Ownership.ReleaseSharedInv` | Common/include/common/shared_pointer.hpp:142-151 | giving up ownership deletes exactly with the last owner |
| `Ownership.TransferInv` | Common/include/common/shared_pointer.hpp:43-49 | a transfer keeps the accounting, makes the shared pointer the only owner with the counter at one, resets the unique pointer and deletes nothing |
| `OwnershipRuns.SharedIs` | Common/include/common/shared_pointer.hpp:19-101 | after each operation every shared pointer is what it should be: a copy equals its source, a moved-from pointer is null and its target has what it had, a transfer gives the unique pointer's object and a new control block, assigning to itself changes nothing, and no other pointer changes |
| `OwnershipRuns.UniqueIs` | Common/include/common/unique_pointer.hpp:12-61 | the same for unique pointers: the target of a move has the source's object and leak mark, the source is reset, and no other pointer changes |
| `OwnershipRuns.ObjectsAfter` | Common/include/common/unique_pointer.hpp:50-105 | only constructions bring objects into being, and an object is leaked exactly when a marked unique pointer that owns it is destroyed or assigned to |
| `OwnershipRuns.UnmarkedRunDeletes` | Common/include/common/shared_pointer.hpp:14-151 | in every run in which no unique pointer is marked, each object that some construction brought into being has an owner or has been deleted exactly once, and nothing else is ever deleted |
| `PointerHeap.Heap.constructor` | Common/include/common/shared_pointer.hpp:14-24 | no pointers, counters or targets |
| `PointerHeap.Counter.Add` | Common/include/common/shared_pointer.hpp:135-151 | an update through one owner's reference changes what every owner of that counter sees, and nothing else |
| `PointerHeap.Heap.DeleteCounter` | Common/include/common/shared_pointer.hpp:144-147 | deleting a counter that no other pointer refers to leaves no dangling reference but that of its last owner |
| `PointerHeap.SharedPointer.constructor` | Common/include/common/shared_pointer.hpp:19-24 | the heap then abstracts to the ownership machine's state after the construction; a null pointer has no counter |
| `PointerHeap.SharedPointer.Copy` | Common/include/common/shared_pointer.hpp:26-32 | likewise: the copy aliases the counter of the original |
| `PointerHeap.SharedPointer.Move` | Common/include/common/shared_pointer.hpp:34-41 | likewise: the reference moves and the original is null |
| `PointerHeap.SharedPointer.FromUnique` | Common/include/common/shared_pointer.hpp:43-49 | likewise: a new counter, and the unique pointer is reset without a deletion |
| `PointerHeap.SharedPointer.AcquireUnlocked` | Common/include/common/shared_pointer.hpp:135-140 | one more owner in the shared counter, if there is one |
| `PointerHeap.SharedPointer.ReleaseUnlocked` | Common/include/common/shared_pointer.hpp:142-151 | one owner less; the last one deletes the target and the counter, and no pointer is left with a reference to a deleted counter |
| `PointerHeap.SharedPointer.LastOne` | Common/include/common/shared_pointer.hpp:144 | a counter that stands at one is referred to by this pointer alone |
| `PointerHeap.SharedPointer.GetCount` | Common/include/common/shared_pointer.hpp:124-128 | the value read through any owner is the number of owners |
| `PointerHeap.SharedPointer.Assign` | Common/include/common/shared_pointer.hpp:67-77 | copy assignment, also between two owners of one target and to itself, does what the ownership machine does |
| `PointerHeap.SharedPointer.AssignMoved` | Common/include/common/shared_pointer.hpp:79-90 | so does move assignment |
| `PointerHeap.SharedPointer.AssignFromUnique` | Common/include/common/shared_pointer.hpp:92-101 | and assignment from a unique pointer |
| `PointerHeap.SharedPointer.Destroy` | Common/include/common/shared_pointer.hpp:14-17 | and destruction |
| `PointerHeap.UniquePointer.constructor` | Common/include/common/unique_pointer.hpp:19 | sole owner of a new target |
| `PointerHeap.UniquePointer.Move` | Common/include/common/unique_pointer.hpp:23-30 | the target and the leak mark move, and the source is reset |
| `PointerHeap.UniquePointer.AssignMoved` | Common/include/common/unique_pointer.hpp:50-61 | likewise, after releasing what was owned; assigning to itself does nothing |
| `PointerHeap.UniquePointer.MarkShouldLeak` | Common/include/common/unique_pointer.hpp:88-92 | only the mark changes |
| `PointerHeap.UniquePointer.ReleaseUnlocked` | Common/include/common/unique_pointer.hpp:99-105 | the target is deleted unless it was marked, and the pointer is null |
| `PointerHeap.UniquePointer.GiveUp` | Common/include/common/unique_pointer.hpp:50-61 | being marked and then reset deletes nothing |
| `PointerHeap.UniquePointer.Destroy` | Common/include/common/unique_pointer.hpp:12-15 | the target is deleted unless it was marked |
| `ElfLoading.DisjointSegmentsLoad` | Kernel/include/elf_loader.hpp:46-92 | with disjoint loadable segments inside the file, each holds its file bytes followed by zeros and all other memory is unchanged |
| `ElfLoading.SegmentHolds` | Kernel/include/elf_loader.hpp:67-92 | also without disjointness: the last segment that covers an address decides its byte |
| `ElfLoading.OtherMemoryKept` | Kernel/include/elf_loader.hpp:67-92 | an address that no loadable segment covers keeps its byte |
| `ElfLoading.OrderIsIrrelevant` | Kernel/include/elf_loader.hpp:46-56 | two lists of the same disjoint segments leave the same memory |
| `ElfLoading.ElfLoader.Load` | Kernel/include/elf_loader.hpp:46-56 | memory after the loop over the headers, for every header list |
| `ElfLoading.ElfLoader.ActionLoad` | Kernel/include/elf_loader.hpp:74-92 | clearing then copying writes the file bytes and zeros, and nothing else |
| `ElfLoading.ElfLoader.Memset` | Kernel/include/elf_loader.hpp:83 | fills exactly the range |
| `ElfLoading.ElfLoader.CopyFromImage` | Kernel/include/elf_loader.hpp:84-86 | copies exactly the range |

## Left out

- Boot assembly, port I/O, panic and halt, the memory management unit and the context switch itself: hardware or hidden code.
- Terminal, text lines, line editor, keyboard and logger: user interface.
- `MallocZone` search loops: malloc's inline loop and the two `find_best_fit` overloads are one method, with alignment 1 where the source has none.
- `MallocZone` debug walks: the walk that checks a pointer in free and realloc also supplies the header here, in place of the subtraction.
- Header writes into the region: a header is an object with an address, so overwriting a header through a stray payload write is not expressible.
- MallocZoneHeap.MallocZone.Realloc: contents of a moved allocation are stated as what the code's copy leaves, not as the caller's bytes, because the copy goes the other way.
- MallocZoneHeap.MallocZone.constructor: requires room for both headers; for less the program's subtraction wraps and the first block reaches around the address space.
- MallocTheorems.MemalignGrants: requires a gap that is a multiple of 4 when it must cut; without it the zone invariant is lost (MemalignKeepsInvIff).
- MallocEffects.MemalignCorrect: requires the same.
- MallocZoneHeap.TakeAligned: requires that the second search succeeds and its sum does not wrap, which the source does not check.
- MallocZoneHeap.MallocZone.Memalign: requires both.
- Memory orders and fences; progress of the guard's retry loop while other threads run too; spin locks and mutexes.
- Guard misuse: calls to release or abort by a thread that does not hold the guard.
- `LockHandOff` and more than one processor; the two halves of `lock` and `unlock` are not separated.
- Handler lookup and spurious interrupts in the dispatcher: an interrupt is the hold it takes and the call it may make.
- Lifetime of the thread object inside vanish: threads are identities.
- `Vector` under the scheduler: a sequence.
- `BitArray` region operations, scans and `clear_all`: the allocator does not use them.
- PageFrames.PageFrameAllocator.Allocate: requires a request that does not run past the bitmap, which the bitmap asserts against; AllocateOverrunsIff says which requests do.
- PageFrames.PageFrameAllocator.IsSpanFree: requires a bitmap that does not cover the last page of the address space, where the loop's own counter would wrap.
- Raw bounds and in-memory layout of the multiboot map, and the flags word: the map is given as its entries.
- BootMemory.Configure: requires modules whose frames have bits and a map that is walked cleanly; on other maps the enumerator's remaining length underflows or its assertion fails.
- BootMemory.PageEnumerator.constructor: requires the same of the map.
- Scheduler.SchedulerUnlocked.Begin: does not model the function pointer that mutexes yield through.
- `%p`, `vasprintf`, `asprintf`, `printf`, `fprintf`, `strcmp`, and null buffers or formats in `vsnprintf`.
- Printf.Vsnprintf: does not cover formats with %p or the most negative int.
- Printf.Writer.Convert: does not cover %p, whose padding takes from the room in the buffer while it fills a temporary.
- Printf.FormatUnsigned: does not cover 32-bit values in base 2, whose scratch buffer has no NUL; the formats use bases 10 and 16.
- Printf.Writer.InsertUint: does not cover the same.
- Printf.Writer.InsertInt: does not cover the most negative int, whose negation overflows in C.
- Formats.SignedDirective: does not cover it either.
- StringToLong.StringToLongConverter.Convert: does not model overflow of long; the range lemmas say when there is none.
- StringToLong.StringToLongConverter.ParseNumberDigits: tests the position before it reads the character, where the source reads first.
- A null end pointer argument: the value it would receive is returned as an option.
- `RingBuffer` copies, moves, comparison, iteration, and destruction of the elements in popped slots.
- `LinkedList` copies, destruction, and deletion of removed nodes.
- Locks inside `SharedPointer` and `UniquePointer`, their accessors and comparisons; the lock calls are no-ops here.
- Two pointers made from the same raw address: each construction names a new object.
- ELF header parsing and checks, page mapping, protection flags, the entry call, and address wrap-around of segments.
- `Either`, `Optional`, `Expected`, `Vec2`, `StaticStack`, symbolicator, backtrace and the rest of libcxxrt: they would add easy members only.
