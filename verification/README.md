# Verified model of InfiniRT's memory pool, reduced floats and tensor metadata

A Dafny model of the four parts of InfiniRT with the most state and arithmetic, and proofs of what
each of them is for. `dafny verify dfyconfig.toml` checks everything.

**Memory pool** (`Pool*.dfy`). `PoolModel` is the caching device allocator as a value, each critical
section a function; what the backend and the growth of containers answer are arguments, so every
failure point is a case. `PoolInvariant` says where a block may be listed and who may hold a pin:
the open capture transaction, a thread between the two critical sections of a commit, a lease.
`PoolSteps` proves what each section does, `PoolAnswers` when an allocation returns and with which
block, `PoolTrim` how far a failing trim gets. `PoolRuns` puts sections of many threads in any order;
`PoolHistory`, `PoolCapture`, `PoolTransactions` and `PoolOrder` draw the conclusions about whole runs:
stable addresses (of leases and of the open transaction), a ledger of backend memory, owner counts,
capture generations, what each transaction freezes and each lease holds, and which block is reused,
all told from the log of calls. `PoolState`
has the source's own form, block objects shared by lists, a map and a set and updated in place, proved
against `PoolModel`; `PoolMachine` runs that code with the local batches and leases of many threads and
proves that it follows `PoolRuns` step by step and, in `Replay`, that every run is a run of the code, so
the theorems about runs are theorems about the code.

**Reduced floats** (`Words`, `Rounding`, `ReducedFloat`, `FloatConversions`). Bit patterns stand for
exact integers (multiples of the smallest binary32 subnormal); results are compared with every
competing encoding. The encoding of infinity counts as the next value after the largest finite one,
which is the overflow rule of section 4.3.1 of IEEE 754-2019.

**Small vector and metadata storage** (`HeapMemory`, `SmallVector`, `ShapeStridesStorage`,
`CombinedLayout`, `HeapOwnership`, `HeapSteps`, `HeapRuns`). An explicit heap of blocks that remember
the capacity and the way they were allocated; reading an uninitialised or freed cell, and giving back a
block twice or with another capacity, are precondition failures. `HeapOwnership` proves one owner per
block over any run of operations. `HeapRuns` registers any number of vectors, owner tokens and storages
on one heap; each public operation says what is registered and what is held afterwards and adds one
step to the recorded run, so calls can be made in any order and the theorem holds of them. Abort
(`Aborted`) ends the process, so little is said of the state after it.

**Tensor metadata** (`TensorLayout`, `TensorView`). Row-major numbering in any rank, and the wrapping
64-bit code that computes and tests it.

## Model

| member | source | states |
|---|---|---|
| `PoolRuns.RunIsSafe` | src/reusable_memory_pool.cc:37-412 | In every world reachable by any interleaving of any number of threads, one critical section per step: every block is listed exactly where its kind and state say, each pin count is exactly the number of holders, and the backend was never asked to free a pointer it did not hold |
| `PoolRuns.StepKeeps` | src/reusable_memory_pool.cc:108-412 | One critical section of one thread, with any answers from the backend and the containers, keeps that invariant, also between the two critical sections of a commit |
| `PoolHistory.LeaseKeepsAddresses` | src/reusable_memory_pool.cc:294-307 | Until a lease is dropped, every block it holds stays in the map with the same address and size, stays pinned, and its memory stays live at the backend, whatever the other threads do, destroying the pool object included |
| `PoolHistory.PinnedAddressIsStable` | src/reusable_memory_pool.cc:322-412 | Between any two moments of a run during which a block stays pinned, by a lease, a commit in flight or the open transaction, its address, size and memory are the same |
| `PoolCapture.TransactionKeepsAddresses` | src/reusable_memory_pool.cc:108-120 | A block frozen by the open transaction stays frozen, pinned, live and where it is over any run segment in which that transaction is neither committed nor cancelled and the last owner of the pool does not go, whatever other threads do |
| `PoolCapture.StepKeepsFrozen` | src/reusable_memory_pool.cc:108-120 | The same for the frozen list in one step |
| `PoolCapture.EndsExactly` | src/reusable_memory_pool.cc:257-291 | The pool ends exactly when its object is destroyed with no lease and no commit under way, or when the last lease is dropped after the object |
| `PoolCapture.EndOfPoolFreesFrozen` | src/reusable_memory_pool.cc:257-291 | The open transaction is no such owner: when the pool ends under it, each block it pinned is freed, except what the backend refuses |
| `PoolCapture.FreedWhilePinned` | src/reusable_memory_pool.cc:257-291 | A run that shows it: begin, allocate, destroy the pool object; the block is freed with a pin count of 1 |
| `PoolHistory.StepKeepsPinned` | src/reusable_memory_pool.cc:390-412 | No single step moves, resizes or frees a pinned block unless it closes the pool |
| `PoolHistory.MemoryIsConserved` | src/reusable_memory_pool.cc:165-220 | If frees that undo a failed allocation or close the pool succeed, the backend holds exactly the keys of the block map after every operation, failed allocations and failed trims included, and nothing after the last owner is gone |
| `PoolHistory.LedgerIsExact` | src/reusable_memory_pool.cc:165-220 | Whatever the backend refuses: at every moment of a run at which the pool lives, the backend holds its blocks and, besides, exactly the pointers of those allocations that reached the backend, were granted, threw, and whose clean-up free was refused |
| `PoolHistory.StepLedger` | src/reusable_memory_pool.cc:165-291 | The same for one step; and what is left with the backend when the last owner closes the pool is exactly what was leaked before and what the backend refuses then |
| `PoolHistory.StepConserves` | src/reusable_memory_pool.cc:165-291 | While those frees succeed, no single step parts the backend's pointers from the keys of the block map |
| `PoolHistory.OwnersAreCounted` | src/reusable_memory_pool.cc:143-256 | After any run the use count of a block is the number of allocations and retains of its address minus the number of accepted deallocations; an address outside the pool has no owner left |
| `PoolHistory.HandedOutOnlyWhenFree` | src/reusable_memory_pool.cc:150-197 | An address is handed out only at a moment when the callers' own books show no owner of it |
| `PoolHistory.ExcessReleaseIsRefused` | src/reusable_memory_pool.cc:223-240 | Giving back an address more often than it was taken throws and changes nothing |
| `PoolHistory.ReleaseIsAccepted` | src/reusable_memory_pool.cc:223-240 | Giving back an address that the callers' books show an owner of is accepted, always while there is a second owner; only the last owner of a size-class block can be refused, when the free list cannot grow |
| `PoolHistory.StepPointwise` | src/reusable_memory_pool.cc:130-412 | Effect of any step on any one address: owner count, capture stamp, identity and presence |
| `PoolHistory.StepKeepsLease` | src/reusable_memory_pool.cc:294-307 | A step that does not drop a lease leaves the pool state alive and that lease's batch unchanged |
| `PoolCapture.RetainAnswersByTransaction` | src/reusable_memory_pool.cc:371-382 | `retain_for_capture` answers false exactly when the last allocation that handed out the block was made by the capturing thread inside the transaction that is open now, over any number of begin, commit and cancel cycles |
| `PoolCapture.StampsAreExact` | src/reusable_memory_pool.cc:138-141 | Each block carries the generation that the log of the run says its last allocation earned |
| `PoolCapture.RunTracks` | src/reusable_memory_pool.cc:322-370 | The generation counter, the pinned flag and the owner agree at every moment with the transactions in the log |
| `PoolCapture.GenerationsGrow` | src/reusable_memory_pool.cc:329-331 | Generations are non-zero, strictly increasing, within 64 bits, and never reused |
| `PoolTransactions.TransactionAnswers` | src/reusable_memory_pool.cc:322-382 | Over any run, from the log alone: begin returns exactly when no transaction is open and a generation is left; commit and cancel are refused exactly for another thread's transaction; only its own thread captures, and then every block of the pool unless a container refuses |
| `PoolTransactions.TransactionsDoNotOverlap` | src/reusable_memory_pool.cc:322-370 | Between two transactions that were opened the first was committed or cancelled |
| `PoolTransactions.FrozenIsExact` | src/reusable_memory_pool.cc:108-120 | At every moment of a run the frozen list names exactly the blocks that the thread which opened the transaction was handed or captured since |
| `PoolTransactions.OnlyOpenerFreezes` | src/reusable_memory_pool.cc:108-120 | A block enters the frozen list only through a call of the thread that opened the transaction, and only the block of that call |
| `PoolTransactions.StepFreezes` | src/reusable_memory_pool.cc:108-120 | The effect of any step on the frozen list |
| `PoolTransactions.BatchesAreExact` | src/reusable_memory_pool.cc:335-357 | At every moment of a run a commit under way or a lease holds exactly the blocks that its transaction's thread was handed or captured between the opening and the commit, and which holders there are is told by the log |
| `PoolTransactions.HandleIsExact` | src/reusable_memory_pool.cc:300-300 | The pool object exists until it is destroyed |
| `PoolTransactions.PoolLivesExactly` | src/reusable_memory_pool.cc:257-300 | The pool state lives exactly as long as its object, a commit under way or a lease |
| `PoolTransactions.StepReplies` | src/reusable_memory_pool.cc:130-412 | What the calls answer that are not about transactions: the address, the physical size, success, or the exception |
| `PoolSteps.AllocateKeeps` | src/reusable_memory_pool.cc:130-222 | Allocation returns only a fresh block or one without owners, which serves the request (exact size, or smallest class that fits, or the large list when none does, a new large block of exactly the rounded size), is stamped, has one owner, and is pinned and frozen exactly when the caller owns the open capture and had not frozen it yet; all other blocks are as before; it grows only when no idle block would have served; an allocation that throws leaves the pool as it was, except that a refused clean-up free leaks the pointer |
| `PoolSteps.ReusesBeforeGrowing` | src/reusable_memory_pool.cc:143-199 | While some idle block of the pool would serve the request, the backend is not asked: the pool afterwards and the answer, return or throw, are the same whatever the backend and the containers of a new block would have answered |
| `PoolSteps.GrowsOnMiss` | src/reusable_memory_pool.cc:152-221 | When none would serve, only the block the backend gave can be returned, and without one the pool stays as it was |
| `PoolAnswers.AllocateAnswers` | src/reusable_memory_pool.cc:130-222 | The answer to every request, value or exception: nothing for zero bytes, a length error when the padding does not fit; the first idle block of its list that would serve, unless the capturing thread cannot freeze it; otherwise the block of the backend, unless the backend or a container refuses |
| `PoolAnswers.AllocateReturnsExactly` | src/reusable_memory_pool.cc:143-222 | When a request returns, as one condition on request, pool and refusals |
| `PoolAnswers.FoundIsFirst` | src/reusable_memory_pool.cc:147-191 | The block found is before every other idle block that would serve, and one is found exactly when there is one |
| `PoolAnswers.FirstIsUnique` | src/reusable_memory_pool.cc:147-191 | There is only one such block |
| `PoolAnswers.OthersPinNothing` | src/reusable_memory_pool.cc:108-120 | An allocation by a thread that does not own the open capture leaves the frozen list and every pin count as they were and gives a new block none |
| `PoolAnswers.SizesByExample` | src/reusable_memory_pool.cc:61-106 | The sizes in numbers: 256-byte rounding, classes of 32 KiB, 256 KiB, 1 MiB and then doubled up to 256 MiB |
| `PoolSteps.SearchesServe` | src/reusable_memory_pool.cc:143-191 | The conditions of the two searches are: idle and of the smallest class that is large enough, or of exactly the size, or large enough |
| `PoolOrder.ReusesLongestIdle` | src/reusable_memory_pool.cc:147-191 | Over any run, a reused size-class block is the one of its class that was given back longest ago; a reused large or exact block is, of those that would serve, the one created first |
| `PoolOrder.ListsFollowLog` | src/reusable_memory_pool.cc:223-256 | Free lists are in the order in which their blocks were given back, the large list in the order of creation, at every moment of a run |
| `PoolOrder.StepWaits` | src/reusable_memory_pool.cc:145-256 | The same for one step: a block given back by its last owner goes to the end, and nothing else changes the order |
| `PoolSteps.NoneServesIsMiss` | src/reusable_memory_pool.cc:147-191 | A search that comes back empty means that no idle block of the whole pool would serve, and the other way round |
| `PoolSteps.ThrownLeaksExactly` | src/reusable_memory_pool.cc:165-220 | What an allocation that throws leaves behind, to the pointer: nothing, except the granted pointer when the free that undoes it is refused |
| `PoolSteps.RollbackRestores` | src/reusable_memory_pool.cc:171-220 | Undoing a half-built block at any of its failure points restores the pool exactly |
| `PoolSteps.AlignUpIsLeast` | src/reusable_memory_pool.cc:30-34 | The rounded size is the least multiple of the alignment that is large enough, and the request is refused exactly when the padding would not fit a word |
| `PoolSteps.FirstClassIsSmallest` | src/reusable_memory_pool.cc:143-146 | The class chosen is the smallest that is large enough |
| `PoolSteps.ServesFromClass` | src/reusable_memory_pool.cc:137-146 | Aligning a request never changes the class that serves it |
| `PoolInvariant.FirstIdleFinds` | src/reusable_memory_pool.cc:147-150 | The search of a free list returns its first idle entry, or none if all are in use |
| `PoolInvariant.FirstFitFinds` | src/reusable_memory_pool.cc:183-191 | First fit among large and exact blocks: the first that serves the request, none if there is none |
| `PoolSteps.FreezeKeeps` | src/reusable_memory_pool.cc:108-120 | For the thread that owns the open capture freezing adds one pin and one holder together, at most once per transaction; for any other thread it changes nothing; it fails exactly when a container that has to grow does not, and then the pool is as it was |
| `PoolSteps.DeallocateKeeps` | src/reusable_memory_pool.cc:223-240 | A release returns exactly for null and for a block with an owner, unless the last owner of a size-class block meets a free list that cannot grow; one owner fewer; the last one sends a size-class block back to its own free list; every throw has its own reason and leaves the pool as it was |
| `PoolSteps.RetainKeeps` | src/reusable_memory_pool.cc:241-256 | One owner more, also for an idle block, which leaves its free list; throws exactly for foreign pointers |
| `PoolSteps.BeginKeeps` | src/reusable_memory_pool.cc:322-334 | A transaction opens exactly when none is open and a generation is left, with a larger generation; the stale-blocks refusal is unreachable |
| `PoolSteps.DetachKeeps` | src/reusable_memory_pool.cc:336-349 | The first half of a commit is refused exactly for another thread's transaction and empty exactly without one; otherwise it moves the frozen list to the committing thread and changes no pin count |
| `PoolSteps.LeaseKeeps` | src/reusable_memory_pool.cc:350-352 | Turning the batch in flight into a lease renames one holder |
| `PoolSteps.ReleaseKeeps` | src/reusable_memory_pool.cc:121-129 | Releasing a batch takes exactly one pin from each of its blocks |
| `PoolInvariant.UnpinReleases` | src/reusable_memory_pool.cc:125-126 | On the batches that occur, the guard `pin_count > 0` is always true |
| `PoolInvariant.ReleaseKeepsCount` | src/reusable_memory_pool.cc:300-300 | Dropping a whole holder keeps the pin counts exact |
| `PoolSteps.CancelKeeps` | src/reusable_memory_pool.cc:358-370 | Cancelling releases each frozen block once and is refused exactly for a thread that does not own the open capture |
| `PoolSteps.RetainForCaptureKeeps` | src/reusable_memory_pool.cc:371-382 | Capturing succeeds exactly for the thread that owns the open capture and a block of the pool whose freeze does not fail; it freezes that block once and changes nothing else; every throw leaves the pool as it was |
| `PoolSteps.SweepFrees` | src/reusable_memory_pool.cc:394-411 | One erasing pass frees exactly evictable entries, each while it is live, up to the first refused free |
| `PoolSteps.TrimKeeps` | src/reusable_memory_pool.cc:390-412 | A trim that returns leaves exactly the blocks in use or pinned; one that throws has removed only idle unpinned ones; it throws exactly when the backend refuses one of those |
| `PoolTrim.TrimStopsAtFirst` | src/reusable_memory_pool.cc:390-412 | A trim that throws has freed exactly the idle unpinned blocks that it visits (classes in order, then the rest, each list from the front) before one block whose free was refused |
| `PoolTrim.SweepStops` | src/reusable_memory_pool.cc:394-411 | The same for one erasing pass |
| `PoolSteps.DestroyFrees` | src/reusable_memory_pool.cc:257-291 | Destruction frees each block once while it is live, or nothing if the stream did not drain; the backend keeps exactly what it refused to take back and what was never the pool's |
| `PoolSteps.TotalPinnedSplits` | src/reusable_memory_pool.cc:386-387 | The sum over the block map does not depend on the iteration order |
| `PoolSteps.PinnedBytesByHolders` | src/reusable_memory_pool.cc:383-389 | In every pool of a run, bytes are pinned exactly when some holder holds a block; and the sum does not wrap while the regions of the blocks lie apart in the address space |
| `PoolSteps.PinnedBelow` | src/reusable_memory_pool.cc:383-389 | Blocks that lie apart below an address cannot sum up to that address |
| `PoolMachine.Machine.PinnedBytes` | src/reusable_memory_pool.cc:383-389 | The 64-bit answer of the loop is then the exact sum, and zero exactly when nobody holds any block |
| `PoolMachine.Machine.Do` | src/reusable_memory_pool.cc:108-412 | Any critical section of any thread, run by the in-place code on block objects, local batches and leases, does exactly what the run model says; the recorded history stays a run, and only new block objects enter the map, so sections can be called one after another |
| `PoolMachine.Replay` | src/reusable_memory_pool.cc:37-412 | Every run there can be is one of the code: driven from a new pool by the events of the run it visits the worlds of the run and gives its answers, whichever way its commits fail; so every theorem about runs is one about running code |
| `PoolMachine.Machine.StillHeld` | src/reusable_memory_pool.cc:294-357 | Batches and leases keep naming the same block objects through whatever other threads do, because what they hold is pinned and stays in the map |
| `PoolMachine.Machine.Allocate` | src/reusable_memory_pool.cc:130-222 | An allocation between other threads' sections follows the run model |
| `PoolMachine.Machine.Trim` | src/reusable_memory_pool.cc:390-412 | So does a trim; its precondition holds in every run |
| `PoolMachine.Machine.Detach` | src/reusable_memory_pool.cc:336-349 | First critical section of a commit: the frozen list moves to a local variable |
| `PoolMachine.Machine.FinishCommit` | src/reusable_memory_pool.cc:350-352 | The lease takes over the batch, however many sections came in between |
| `PoolMachine.Machine.AbortCommit` | src/reusable_memory_pool.cc:353-356 | Second critical section of a failed commit, however many sections came in between: each pin is released once |
| `PoolMachine.Machine.DropLease` | src/reusable_memory_pool.cc:300-300 | Dropping a lease at any later time releases its pins once, and the last owner closes the pool |
| `PoolState.StillListed` | src/reusable_memory_pool.cc:194-207 | A list of block objects outlives any change of the map that keeps its addresses and replaces no object |
| `PoolState.State.AllocateImpl` | src/reusable_memory_pool.cc:130-222 | The in-place code over block objects does to the pool what `Allocate` says, with the same answer or exception |
| `PoolState.State.AllocateInClass` | src/reusable_memory_pool.cc:145-179 | The size-class branch, reuse and growth |
| `PoolState.State.AllocateLargeOrExact` | src/reusable_memory_pool.cc:181-222 | The large and exact branch, reuse and growth |
| `PoolState.State.FindIdle` | src/reusable_memory_pool.cc:147-149 | Position of the first idle entry of a free list |
| `PoolState.State.FindFit` | src/reusable_memory_pool.cc:183-190 | Position of the first large or exact entry that serves the request |
| `PoolState.State.GrowWithClassBlock` | src/reusable_memory_pool.cc:159-178 | A new size-class block, or everything undone |
| `PoolState.State.GrowWithLargeBlock` | src/reusable_memory_pool.cc:199-221 | A new large or exact block, or everything undone |
| `PoolState.State.RollbackBlock` | src/reusable_memory_pool.cc:211-220 | The catch block on a partly listed block |
| `PoolState.State.FreezeForCapture` | src/reusable_memory_pool.cc:108-120 | Push, then insert, then pin, with the push undone if the insertion throws |
| `PoolState.State.Deallocate` | src/reusable_memory_pool.cc:223-240 | The in-place code refines `Deallocate` |
| `PoolState.State.RetainAllocation` | src/reusable_memory_pool.cc:241-256 | The in-place code refines `Retain` |
| `PoolState.State.BeginPinMode` | src/reusable_memory_pool.cc:322-334 | The in-place code refines `Begin` |
| `PoolState.State.DetachFrozen` | src/reusable_memory_pool.cc:336-349 | The moved-out list is the frozen list, object by object |
| `PoolState.AbandonCommit` | src/reusable_memory_pool.cc:350-356 | Wherever building the lease fails, each pin is released exactly once, by the catch block or by the destructor of the pin state, never by both |
| `PoolState.CommitPinMode` | src/reusable_memory_pool.cc:335-357 | The whole call when no other thread steps in between |
| `PoolState.PinState.Destroy` | src/reusable_memory_pool.cc:300-300 | Dropping a pin state releases its batch |
| `PoolState.State.ReleaseFrozenBlocks` | src/reusable_memory_pool.cc:121-129 | The release loop over block objects refines `Release` |
| `PoolState.State.CancelPinMode` | src/reusable_memory_pool.cc:358-370 | The in-place code refines `Cancel` |
| `PoolState.State.RetainForCapture` | src/reusable_memory_pool.cc:371-382 | The in-place code refines `RetainForCapture` |
| `PoolState.State.PinnedBytes` | src/reusable_memory_pool.cc:383-389 | The loop computes the sum of the sizes of the pinned blocks, modulo the word size |
| `PoolState.State.TrimClass` | src/reusable_memory_pool.cc:394-401 | The erasing loop over one free list refines one sweep, also when a free is refused halfway |
| `PoolState.State.TrimLargeBlocks` | src/reusable_memory_pool.cc:403-411 | The erasing loop over the large blocks refines one sweep |
| `PoolState.State.Trim` | src/reusable_memory_pool.cc:390-412 | The in-place code refines `Trim` |
| `PoolState.State.Destruct` | src/reusable_memory_pool.cc:257-291 | The freeing loop over the block map refines `Destroy` |
| `FloatConversions.Float16IsCorrectlyRounded` | src/data_type.h:81-107 | For every binary32 input but NaN the binary16 result has the input's sign and its magnitude is nearer than every other representable magnitude, or as near and even (section 4.3.1 of IEEE 754-2019), overflow and underflow included |
| `FloatConversions.BFloat16IsCorrectlyRounded` | src/data_type.h:142-150 | The same for bfloat16 |
| `ReducedFloat.NarrowRounds` | src/data_type.h:88-106 | The four branches together round correctly, across their boundaries |
| `ReducedFloat.NarrowRoundsNormal` | src/data_type.h:95-98 | The normal branch, with the carry from fraction into exponent |
| `ReducedFloat.NarrowRoundsSubnormal` | src/data_type.h:99-103 | The subnormal branch |
| `ReducedFloat.NarrowOverflows` | src/data_type.h:88-94 | From the first value beyond the format on, the result is infinity, and that is the correct rounding |
| `ReducedFloat.NarrowUnderflows` | src/data_type.h:105-106 | Below half of the smallest subnormal the result is zero, and that is the correct rounding |
| `ReducedFloat.NarrowBSplits` | src/data_type.h:146-149 | On every input but NaN the 32-bit sum does not wrap and the carry stays out of the sign |
| `ReducedFloat.NarrowBRounds` | src/data_type.h:146-149 | Adding the bias and shifting rounds the magnitude correctly |
| `Rounding.RoundingIsUnique` | src/data_type.h:81-107 | Round-to-nearest-even determines the result: no other encoding satisfies it |
| `Rounding.RoundingIsMonotone` | src/data_type.h:81-107 | Rounding to nearest preserves order in any format |
| `Rounding.RepresentableRounds` | src/data_type.h:81-107 | A representable value rounds to itself |
| `FloatConversions.Float16FromFloat` | src/data_type.h:81-107 | The code, mask by mask and shift by shift in 32-bit words, computes the function whose rounding is proved |
| `FloatConversions.Float16ToFloat` | src/data_type.h:109-136 | The code with its normalising loop, which terminates, computes the widening function |
| `FloatConversions.WidenIsExact` | src/data_type.h:109-136 | Widening a finite binary16 magnitude is exact |
| `FloatConversions.WidenThenNarrow` | src/data_type.h:81-136 | Widening and converting back is the identity on every non-NaN binary16 |
| `FloatConversions.NarrowIsIdempotent` | src/data_type.h:81-136 | Converting, widening and converting again gives the first result for every input, and exactly NaN inputs give NaN |
| `FloatConversions.Float16IsMonotone` | src/data_type.h:81-107 | The conversion to binary16 preserves order, across signs and branches |
| `FloatConversions.BFloat16IsMonotone` | src/data_type.h:142-150 | The conversion to bfloat16 preserves order |
| `FloatConversions.Float16Limits` | src/data_type.h:88-106 | The exact thresholds: infinity from 65520 on, zero up to and including half of the smallest subnormal |
| `FloatConversions.WidenBIsExact` | src/data_type.h:152-157 | Widening a bfloat16 is exact |
| `FloatConversions.WidenThenNarrowB` | src/data_type.h:142-157 | Widening and converting back is the identity on every non-NaN bfloat16 |
| `FloatConversions.BFloat16NanFate` | src/data_type.h:142-150 | What becomes of a NaN: it stays one exactly when its bits without sign lie strictly between 0x7F808000 and 0x7FFF8000, then with its sign and its payload rounded to the upper bits; below it becomes infinity, above a zero of the other sign |
| `FloatConversions.Float16NanFate` | src/data_type.h:88-94 | Every binary32 NaN becomes the quiet binary16 NaN of its sign |
| `FloatConversions.WidenKeepsPayload` | src/data_type.h:109-117 | Infinity widens to infinity; a NaN keeps its sign and all bits of its payload |
| `FloatConversions.BFloat16NanExamples` | src/data_type.h:146-149 | Concrete NaNs that turn into infinity and into minus zero |
| `SmallVectors.SmallVector.PushBack` | src/common/small_vector.h:272-282 | Appends the argument's old value, also when the argument lives in the buffer that growth frees; on a failed allocation nothing has changed; it fails to make room exactly for a full vector at the allocator's limit |
| `SmallVectors.FourthOfThree` | src/common/small_vector.h:528-537 | The failure is real: with at most three elements to a block and two inline, a fourth element finds no room although the allocator granted the block |
| `SmallVectors.AmortisedGrowth` | src/common/small_vector.h:528-537 | Any number n of appends to an empty inline vector moves at most 4n elements and ends with a capacity of at most the inline capacity or 3n/2, up to the allocator's limit |
| `SmallVectors.GrowthMakesRoom` | src/common/small_vector.h:528-537 | Growing makes half as much again, rounded down and at least one more, up to the allocator's limit; it makes room exactly below that limit |
| `SmallVectors.SmallVector.InitializeInputRange` | src/common/small_vector.h:398-401 | When the allocator grants a number of blocks and then none: all values exactly when that number covers the growths and the values do not pass the limit, otherwise the values that fitted; within the amortised bounds |
| `SmallVectors.SmallVector.GrowForAppend` | src/common/small_vector.h:528-537 | Growth keeps the elements and gives back the old block |
| `SmallVectors.SmallVector.Reallocate` | src/common/small_vector.h:517-526 | The elements move to a new block and the old one is given back with its own capacity; on failure nothing has happened |
| `SmallVectors.SmallVector.ReplaceWithHeap` | src/common/small_vector.h:485-501 | The vector owns the new block and no longer the old one, which is given back last |
| `SmallVectors.SmallVector.SwitchToInline` | src/common/small_vector.h:503-508 | From heap to inline storage: empty, and the block given back |
| `SmallVectors.SmallVector.ReconstructInline` | src/common/small_vector.h:510-515 | Empty inline storage, whatever the union held |
| `SmallVectors.SmallVector.InitializeFill` | src/common/small_vector.h:352-365 | A vector of equal elements, inline or in one block of exactly that capacity |
| `SmallVectors.SmallVector.InitializeCount` | src/common/small_vector.h:337-350 | A vector of value-initialised elements |
| `SmallVectors.SmallVector.InitializeForwardRange` | src/common/small_vector.h:367-396 | A vector of the values of a range |
| `SmallVectors.SmallVector.CopyConstructFrom` | src/common/small_vector.h:436-442 | A copy has the elements and the capacity of the original in storage of its own |
| `SmallVectors.SmallVector.MoveConstructFrom` | src/common/small_vector.h:444-458 | A move hands over the block untouched, or copies inline elements, and leaves the source empty and inline |
| `SmallVectors.SmallVector.CopyAssign` | src/common/small_vector.h:183-193 | Copy assignment between any two representations and to itself; a failed allocation leaves both as they were |
| `SmallVectors.SmallVector.CopyAssignHeap` | src/common/small_vector.h:460-468 | The copy is complete before the old block goes |
| `SmallVectors.SmallVector.AssignInline` | src/common/small_vector.h:476-483 | Assignment from an inline vector gives up any heap block first |
| `SmallVectors.SmallVector.MoveAssign` | src/common/small_vector.h:195-206 | Move assignment between any two representations and to itself, without allocation |
| `SmallVectors.SmallVector.MoveAssignHeap` | src/common/small_vector.h:470-474 | The block changes owner; the target's old block is given back |
| `SmallVectors.SmallVector.Reserve` | src/common/small_vector.h:252-256 | Reserving never changes the elements and never shrinks |
| `SmallVectors.SmallVector.Resize` | src/common/small_vector.h:258-270 | Truncation, or value-initialised elements at the end; on failure nothing has changed |
| `SmallVectors.SmallVector.Assign` | src/common/small_vector.h:286-289 | The new elements are complete before the old ones go, in exactly the room they need |
| `SmallVectors.SmallVector.ReleaseHeap` | src/common/small_vector.h:295-301 | The token takes the block with its size and capacity and the vector is empty; an inline vector is untouched |
| `SmallVectors.SmallVector.Destroy` | src/common/small_vector.h:208-210 | Exactly the owned block is given back |
| `SmallVectors.SmallVector.Clear` | src/common/small_vector.h:250-250 | No elements, same representation |
| `SmallVectors.HeapAllocation.MoveAssign` | src/common/small_vector.h:93-102 | The target's block is given back, the source's changes owner; self-assignment changes nothing |
| `SmallVectors.HeapAllocation.Reset` | src/common/small_vector.h:134-137 | A token gives its block back with the capacity it was allocated with, once |
| `SmallVectors.HeapAllocation.Release` | src/common/small_vector.h:116-120 | The caller gets the block and the token forgets it |
| `SmallVectors.HeapAllocation.MoveConstructFrom` | src/common/small_vector.h:88-91 | The token changes hands |
| `ShapeStrides.ShapeStridesStorage.Initialize` | src/common/shape_strides_storage.h:291-309 | Both arrays as given, of independent lengths, in the object or in one combined block; nothing is left behind when the allocation, the writer or a size check fails |
| `ShapeStrides.BuildAnswers` | src/common/shape_strides_storage.h:291-309 | When construction succeeds and how it fails: abort exactly for a length beyond 32 bits or a combined block whose bytes do not fit a word, no memory needed when the arrays fit the object |
| `ShapeStrides.AdoptionAnswers` | src/common/shape_strides_storage.h:311-334 | When both blocks are adopted only the lengths matter, not the allocator |
| `ShapeStrides.ShapeStridesStorage.AllocateCombined` | src/common/shape_strides_storage.h:162-203 | The combined block holds the two arrays one after the other, or is given back |
| `ShapeStrides.ShapeStridesStorage.ActivateCombined` | src/common/shape_strides_storage.h:400-410 | The inferred tag is combined afterwards |
| `ShapeStrides.ShapeStridesStorage.ActivateSplit` | src/common/shape_strides_storage.h:412-425 | The inferred tag is split afterwards; both tokens are empty and their blocks and capacities adopted |
| `ShapeStrides.ShapeStridesStorage.InitializeOwned` | src/common/shape_strides_storage.h:311-334 | Blocks are adopted exactly when both vectors have one and the result is too long for the object; otherwise the vectors keep theirs and the values are copied |
| `ShapeStrides.ShapeStridesStorage.InitializeMixedShape` | src/common/shape_strides_storage.h:336-346 | Shape given away, strides copied: the same values, the copied vector untouched; the block of the shape is adopted exactly when it has one and both are too long for the object |
| `ShapeStrides.ShapeStridesStorage.InitializeMixedStrides` | src/common/shape_strides_storage.h:348-358 | Strides given away, shape copied, with the same condition on adoption |
| `ShapeStrides.ShapeStridesStorage.InitializeDefaultStrides` | src/common/shape_strides_storage.h:360-374 | Shape as given, strides the default ones |
| `ShapeStrides.ShapeStridesStorage.InitializeDefaultStridesOwned` | src/common/shape_strides_storage.h:376-387 | The same from a vector given away, whose block is kept exactly when it has one and the extents are too long for the object |
| `ShapeStrides.ShapeStridesStorage.CopyConstructFrom` | src/common/shape_strides_storage.h:97-99 | A copy has the same arrays and shares no block |
| `ShapeStrides.ShapeStridesStorage.MoveConstructFrom` | src/common/shape_strides_storage.h:427-454 | A move hands over the blocks and leaves the source empty and inline |
| `ShapeStrides.ShapeStridesStorage.ReleaseStorage` | src/common/shape_strides_storage.h:466-483 | Every block goes back the way it came, with the capacity it was allocated with |
| `CombinedLayout.RegionsFit` | src/common/shape_strides_storage.h:164-187 | Once the checked arithmetic has succeeded, `std::align` cannot fail, both regions lie in the block, do not overlap, and all their elements are aligned, for all sizes and alignments |
| `CombinedLayout.CombinedBytesExactly` | src/common/shape_strides_storage.h:165-170 | The computation aborts exactly when the exact byte count does not fit a word |
| `CombinedLayout.CheckedMultiplyExactly` | src/common/shape_strides_storage.h:214-221 | The division test detects exactly the products that do not fit |
| `HeapOwnership.RunKeepsOwnership` | src/common/small_vector.h:80-144 | Over any run of operations on vectors, tokens and storages: each live block has exactly one owner, which will give it back with the right capacity; an object reads the same at any two moments between which it takes no part; when all objects are gone so are all blocks |
| `HeapOwnership.BystandersReadTheSame` | src/common/small_vector.h:80-144 | Isolation over a run, for one object and two moments |
| `HeapOwnership.OperationKeepsOwnership` | src/common/shape_strides_storage.h:311-358 | The same for one operation with any set of acting objects |
| `HeapRuns.Arena.NewVector` | src/common/small_vector.h:367-396 | After construction from a range the new vector is registered as a new object that holds the values, or nothing at all has changed, exactly when the values do not fit the object and the allocator refuses; the call is one more step of the run of operations recorded so far |
| `HeapRuns.Arena.NewFilledVector` | src/common/small_vector.h:352-365 | Likewise for equal elements |
| `HeapRuns.Arena.NewCountedVector` | src/common/small_vector.h:337-350 | Likewise for value-initialised elements |
| `HeapRuns.Arena.NewInputVector` | src/common/small_vector.h:164-168 | Likewise for a single-pass range and an allocator that grants so many blocks and then none; on failure what was built is given back |
| `HeapRuns.Arena.CopyVector` | src/common/small_vector.h:179-179 | Likewise for copy construction: the copy holds what the source holds |
| `HeapRuns.Arena.MoveVector` | src/common/small_vector.h:181-181 | Move construction registers a new vector that holds what the source held; the source stays registered and holds nothing |
| `HeapRuns.Arena.CopyAssign` | src/common/small_vector.h:183-193 | Copy assignment, to itself included: the target holds what the source holds, or what it held before |
| `HeapRuns.Arena.MoveAssign` | src/common/small_vector.h:195-206 | Move assignment, to itself included: the target holds what the source held, another source holds nothing |
| `HeapRuns.Arena.Assign` | src/common/small_vector.h:286-289 | `assign`: the new values, or the old ones exactly when the allocation it needs is refused |
| `HeapRuns.Arena.PushBack` | src/common/small_vector.h:272-282 | `push_back`: one more element, with the value the argument had before, or the elements as they were, exactly when growth is refused or makes no room |
| `HeapRuns.Arena.Reserve` | src/common/small_vector.h:252-256 | `reserve` keeps the elements and reaches the capacity exactly unless the block it needs is refused |
| `HeapRuns.Arena.Resize` | src/common/small_vector.h:258-270 | `resize`: truncated or extended by the zero element, or as before |
| `HeapRuns.Arena.Clear` | src/common/small_vector.h:250-250 | `clear` leaves no element |
| `HeapRuns.Arena.Overwrite` | src/common/small_vector.h:218-236 | Writing elements in place |
| `HeapRuns.Arena.ReleaseHeap` | src/common/small_vector.h:295-301 | A heap block passes from the vector to a new registered token, values included; an inline vector gives an empty token and keeps its values |
| `HeapRuns.Arena.DropVector` | src/common/small_vector.h:208-210 | Destruction removes exactly this vector from the register, and its block |
| `HeapRuns.Arena.MoveToken` | src/common/small_vector.h:88-91 | Move construction of a token: the new token holds what the source held, the source stays registered and holds nothing |
| `HeapRuns.Arena.MoveAssignToken` | src/common/small_vector.h:93-102 | Move assignment of tokens, to itself included |
| `HeapRuns.Arena.DropToken` | src/common/small_vector.h:104-104 | Destruction of a token |
| `HeapRuns.Arena.NewStorage` | src/common/shape_strides_storage.h:291-309 | A storage built from ranges: registered as a new object that holds both arrays exactly when the status is done, otherwise nothing has changed |
| `HeapRuns.Arena.NewDefaultStorage` | src/common/shape_strides_storage.h:360-374 | Likewise for a storage with default strides |
| `HeapRuns.Arena.NewOwnedStorage` | src/common/shape_strides_storage.h:311-334 | Likewise for a storage built from two vectors, with or without adoption; both vectors stay registered |
| `HeapRuns.Arena.NewMixedShapeStorage` | src/common/shape_strides_storage.h:336-346 | Likewise for a shape given away and strides copied, unless the process aborts |
| `HeapRuns.Arena.NewMixedStridesStorage` | src/common/shape_strides_storage.h:348-358 | Likewise for strides given away and a shape copied, unless the process aborts |
| `HeapRuns.Arena.NewDefaultOwnedStorage` | src/common/shape_strides_storage.h:376-387 | Likewise for a shape given away with default strides, unless the process aborts |
| `HeapRuns.Arena.CopyStorage` | src/common/shape_strides_storage.h:97-99 | Likewise for copying a storage: the copy holds what the source holds |
| `HeapRuns.Arena.MoveStorage` | src/common/shape_strides_storage.h:427-454 | Moving a storage: the newcomer holds what the source held, which stays registered and holds nothing |
| `HeapRuns.Arena.DropStorage` | src/common/shape_strides_storage.h:466-483 | Destroying a storage removes exactly it and its blocks |
| `HeapRuns.Arena.NothingLeaks` | src/common/shape_strides_storage.h:109-109 | After any sequence of these calls, once all vectors, tokens and storages are destroyed no block is left |
| `HeapRuns.Arena.OwnershipOverHistory` | src/common/small_vector.h:80-144 | The theorem about runs for the calls really made: at every recorded moment every live block had exactly one owner, and an object that took no part since a moment holds what it held then |
| `HeapRuns.Arena.BystanderHolds` | src/common/small_vector.h:80-144 | What an object holds does not change while others act |
| `HeapRuns.Arena.DropAll` | src/common/small_vector.h:208-210 | Destroying all registered objects in any order leaves no block |
| `HeapRuns.ThereAndBack` | src/common/shape_strides_storage.h:311-334 | A client of five objects: two vectors given to a storage, which is copied and the copy moved; what is read at the end is what was put in, it is read exactly when everything fits and memory is granted, and nothing is left in memory |
| `TensorView.FillDefaultStrides` | src/common/shape_strides_storage.h:389-398 | The backward loop writes, at each axis, the product of the later extents wrapped to 64 bits |
| `TensorView.DefaultStridesAreRowMajor` | src/common/shape_strides_storage.h:389-398 | These are the row-major strides exactly when none of those products overflows |
| `TensorView.IndexingLands` | src/tensor_view.cc:18-29 | One `operator[]` per axis lands on base plus element size times the sum of index times stride, modulo the word size, whatever wraps on the way, where an index below zero counts from the end |
| `TensorView.FromEitherEnd` | src/tensor_view.h:249-251 | On one axis of n, index i with -n <= i < 0 gives the same view as i + n |
| `TensorView.FromEitherEndAnywhere` | src/tensor_view.h:249-251 | The same on any axis of a full index |
| `TensorView.RowMajorIndexingIsOneToOne` | src/tensor_view.cc:18-29 | With row-major strides, equal addresses mean equal positions |
| `TensorView.RowMajorIndexingIsOnto` | src/tensor_view.cc:18-29 | and every one of the `numel` slots is the address of some index |
| `TensorLayout.NumberDeterminesIndex` | src/common/shape_strides_storage.h:389-398 | Mixed-radix numbering in any rank: the index can be read back from the number |
| `TensorLayout.EveryNumberIsReached` | src/common/shape_strides_storage.h:389-398 | and every number below the product of the extents belongs to an index in range |
| `TensorLayout.NumberInRange` | src/common/shape_strides_storage.h:389-398 | Indices in range are numbered below the product of the extents |
| `TensorView.EffectiveInBox` | src/tensor_view.h:249-251 | Valid indices address elements in range: as they stand from the front, below zero from the end |
| `TensorView.TransposeSwapsIndices` | src/tensor_view.cc:67-76 | Element (j, i) of a transposed matrix is element (i, j) of the original |
| `TensorView.Numel` | src/tensor_view.h:228-238 | The product of all extents, wrapped to 64 bits, for any rank |
| `TensorView.IsMergeable` | src/tensor_view.cc:134-150 | True exactly when every round of the loop accepts |
| `TensorView.IsContiguous` | src/tensor_view.cc:94-104 | True exactly for rank 0, or last stride 1 and all axes mergeable |
| `TensorView.ContiguousMeansDefault` | src/tensor_view.cc:94-150 | For every shape, overflowing or not, contiguous means exactly: default strides and no axis before the last of size 1 with stride 0 |
| `TensorView.ContiguousByShape` | src/tensor_view.cc:94-150 | In terms of the shape alone: default strides, and no size-1 axis over a product of later extents that wraps to zero |
| `TensorView.ContiguousExactly` | src/tensor_view.cc:94-150 | While no product overflows, contiguous means exactly: row-major strides and no axis before the last of size 1 with stride 0; once one does, no row-major tensor is accepted |
| `TensorView.NonEmptyContiguousIsRowMajor` | src/tensor_view.cc:94-150 | Without a zero extent and without overflow, contiguous means exactly row-major |
| `TensorView.ContiguousFillsSlots` | src/tensor_view.cc:94-150 | What the test is for: a non-empty contiguous view whose elements can be counted and lie within the address space fills `numel` consecutive slots, one element each, from its first address on |
| `TensorView.EmptyAxisExample` | src/tensor_view.cc:134-150 | The exception is real: an empty tensor with default strides that the test refuses |

## Left out

- Vendor backends and `Runtime` specialisations: the pool sees only an allocator, a deallocator and a stream drain that may fail.
- The NVIDIA stream-capture query: one more way in which an allocation fails before there is a pointer.
- Stream ordering and completion on the device: the caller's duty.
- `DeviceGuard`, `StreamCreate` and the errors of the `State` constructor: no pool exists yet, or one selection is saved and restored.
- A mutex that fails to lock inside `release_frozen_blocks_`: the model's lock always succeeds.
- `use_count` and `pin_count` are unbounded in the model; 64-bit counters are not exhausted.
- Trailing drain and destruction of the stream in `~State`: they change no block.
- `vector`, `unordered_map` and `shared_ptr` internals: sequences and maps whose growth may fail.
- PoolState.CommitPinMode: runs its two critical sections back to back; `PoolMachine.Machine` has them as `Detach`, `FinishCommit` and `AbortCommit` and lets other threads in between.
- PoolHistory.MemoryIsConserved: a backend that refuses the clean-up free of a failed allocation leaks that pointer, because the code ignores the refusal; the theorem assumes this does not happen, and `PoolHistory.LedgerIsExact` says what is lost when it does.
- FloatConversions.BFloat16IsCorrectlyRounded: NaN inputs are excluded, because the code has no NaN case; `BFloat16NanFate` says exactly what happens to them.
- SmallVectors.SmallVector.PushBack: for a full vector at the allocator's limit growth makes no room and the code writes past the block; the model stops there with `PastEnd`, and says when that happens; `FourthOfThree` is an instance.
- SmallVectors.SmallVector.constructor: the inline array is taken to be smaller than the largest block the allocator can give, as any object is.
- SmallVectors.HeapAllocation.Release: leaves the block to a raw pointer without an owner, so by itself it is no operation of `HeapRuns`; its one use, inside `ActivateSplit`, is part of `InitializeOwned`.
- Element types of `SmallVector` are one abstract type; conversions between element types are not modelled, and the two kinds of metadata elements share one heap of integers.
- Construction of a storage from single-pass ranges: it builds two vectors (`InitializeInputRange`) and gives them away (`InitializeOwned`), both of which are here.
- ShapeStrides.ShapeStridesStorage.InitializeDefaultStrides: the strides are computed in a buffer and then written, instead of in their final place; nothing can fail or look in between.
- The comparison operators of `SmallVector`, iterators and element access: short reads.
- `T()` for ranks other than 2, `HasBroadcastDim` (its index skips, so it does not test what its name says), `ToString`, hashing, dispatch, `MetadataView`, `ConstexprMap`: partial, textual, or easy.
- Indexing in `TensorView.IndexingLands` is limited to steps that the signed multiplication can represent; beyond that C++ leaves the result undefined.
