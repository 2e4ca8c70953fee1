# Models of the systems projects

A Dafny model of six programs of one repository, with proofs about whole runs of each:

- **WeensyOS memory** (`weensyos/`): page tables stored in the pages that `kalloc` hands out, the
  iterators `vmiter` and `ptiter`, and the system calls fork, exit and page_alloc.  Every page has a
  role (unused, a table at one place of one process's tree, or a data page mapped by a set of
  processes); the trees fix the roles and the roles fix the reference counts.  `Invariant` states
  this, `Runs` carries it through every sequence of program starts, system calls and user stores.
- **Block cache** (`fileio/impl/student.c`): a one-block write-back cache, proved to answer like plain
  POSIX calls for every cache size, even when single writes are short.
- **Key-value store** (`kvstore/kvstore/concurrent_kvstore.cpp`): any number of threads taking bucket
  locks, one store access at a time; every run has a serial order, and none deadlocks.
- **Shards** (`kvstore/common/shard.cpp`): base-36 bucket names and the ranges between them.
- **Debugging allocator** (`dmalloc/`): recycled blocks under headers and statistics.
- **Snake** (`snake/src/`): a doubly linked list kept in step with the flags on a board.
- **Numbers** (`weensyos/lib.cc`): printing into a fixed buffer and reading back.

Code that changes objects in place is modelled by classes (`PhysicalMemory`, `VmIter`, `PtIter`,
`WeensyKernel`, `CachedFile`, `BucketMap`, `ConcurrentKvStore`, `BaseAllocator`, `DebugAllocator`,
`List`, `Game`), whose methods are proved against functions or predicates on values; the theorems are
about those.  `dafny verify dfyconfig.toml` checks everything.

## What turned out not to hold

Each of these follows the code, has a concrete case, and has the exact condition under which the
expected property does hold.

- `weensyos/u-lib.hh:92-99` promises for page_alloc that what was mapped before is freed, that a failure
  modifies nothing, and that addresses are checked.  The code does none of this.
  - After a success memory is sound (exact counts for mapped pages, every process confined to its own
    pages) if and only if the address was a process page that was absent or not shared
    (`PageAllocExact`); and it is sound with no page lost if and only if that page was absent
    (`PageAllocLoses`).  From every boot state an allowed run loses a page (`LostFromBoot`).
  - A failure leaves the counts alone if and only if no page was free (`PageAllocFailure`); from every boot
    state one start leads to a failure that loses the page it took (`FailureFromBoot`).
  - The kernel's own addresses are handed out in every safe state with a free page (`KernelAddressTaken`,
    `KernelAddressFromBoot`).
  - From every boot state there is a run of forks, page_allocs and exits after which a page is free
    although a process maps it (`CountWraps`, `WrapFromBoot`): an 8-bit count wraps around.
- A failed fork restores every count unless there is a free slot, the first process page at or above
  page 0x200 is writable, and the free pages are exactly five more than the writable pages below 0x200
  (`ForkFailureExact`).  From every boot state one program start leads there (`LeakFromBoot`).
- The cached file has the contents POSIX gives it in every session without a zero-length write past the
  end, and it then gives all the answers of POSIX if and only if every `writec` got a byte: the code
  returns the byte that it wrote, not the argument (`Session`).  After any session a zero-length write past
  the end can be followed by calls that leave a different file on disk (`Departure`).
- A key shorter than the granularity of a table of shards is in no shard if its name, padded with zeros, is
  the first of a shard, as that of the empty key always is, and otherwise in exactly one (`ShortKeys`).
- Runs with a `MultiPut` are serializable if and only if no key it writes has a hash that is a multiple
  of 60 (`CoveredExact`): that bucket is never locked.
- `dfree` of an active block releases it if and only if the address is below the highest end of any
  block so far; a zero-sized block at the top of the heap is reported as a bug (`Dfree`,
  `FreeEmptyBlock`).
- `from_chars` gives every character its proper digit value if and only if the base is at most 10, and
  upper-case letters theirs if and only if it is at most 17 (`DigitsExact`).

## Model

| member | source | states |
|---|---|---|
| Paging.WalkEnd | weensyos/k-vmiter.cc:6-13 | a walk ends at the table named by the address's own indices, with the access rights of the whole path, at the lowest level or at an entry that does not point down |
| Paging.WalkFrame | weensyos/k-vmiter.cc:6-13 | a translation depends on the pages of its own tree only |
| Paging.TranslateExact | weensyos/k-vmiter.cc:6-42 | the walk of the iterator is that of the hardware, written out level by level: four nine-bit fields, rights met on the way, large pages, nothing for a non-canonical address |
| Paging.FillExact | weensyos/kernel.cc:140-147 | the word that kalloc leaves is eight bytes 0xCC |
| TryMapTheory.TryMapCorrect | weensyos/k-vmiter.cc:52-86 | for every permission, success makes exactly the one virtual page translate to the new mapping, or to nothing if it is not present, and no other translation changes; a call without rights takes no page, and does nothing above the lowest level; failure midway changes no translation; pages in use outside the tree are untouched |
| PhysMem.FindFree | weensyos/kernel.cc:140-147 | the page found is free and every lower one is not |
| PhysMem.KallocExact | weensyos/k-hardware.cc:331-354 | kalloc hands out the lowest page, by plain numbers, that is not page 0, the kernel image, the kernel stack or device memory and is not counted; it fails exactly if there is none |
| PhysMem.KfreeExact | weensyos/kernel.cc:156-173 | kfree takes one count from a counted page outside those ranges and does nothing else |
| VmIterClass.PhysicalMemory.Kalloc | weensyos/kernel.cc:122-150 | the search loop takes the first free page, counts it once and overwrites it, and changes nothing when there is none; never a page of the kernel or the devices, and it fails only if every other page is counted |
| VmIterClass.PhysicalMemory.Kfree | weensyos/kernel.cc:156-173 | one count less on an allocatable counted page, nothing on any other pointer |
| VmIterClass.VmIter.constructor | weensyos/k-vmiter.hh:167-171 | a new iterator stands where a fresh walk to its address ends |
| VmIterClass.VmIter.Down | weensyos/k-vmiter.cc:6-13 | following entries in place equals the recursive descent |
| VmIterClass.VmIter.RealFind | weensyos/k-vmiter.cc:21-42 | after the same-level shortcut, the restart from the root or the end of the address space, the iterator again stands where a fresh walk ends |
| VmIterClass.VmIter.Find | weensyos/k-vmiter.hh:237-242 | after any find the reports are those of a fresh walk |
| VmIterClass.VmIter.Advance | weensyos/k-vmiter.hh:243-245 | the same for += with 64-bit wrap-around |
| VmIterClass.VmIter.Next | weensyos/k-vmiter.cc:44-50 | moves to a later page, and every page skipped is unmapped |
| VmIterClass.VmIter.NextRange | weensyos/k-vmiter.hh:267-269 | moves to the end of the current range and stays equal to a fresh walk |
| VmIterClass.VmIter.RangePerm | weensyos/k-vmiter.cc:89-99 | the result grants exactly the rights that every address of the range grants, nothing if one is unmapped or past the end; the iterator ends where it began |
| VmIterClass.VmIter.TryMap | weensyos/k-vmiter.cc:52-86 | the loop over in-place entries computes the function that TryMapCorrect is about |
| VmIterClass.StepFromTable | weensyos/k-vmiter.cc:26-30 | going on from a table already reached equals a walk from the root |
| VmIterClass.SkippedAbsent | weensyos/k-vmiter.cc:44-50 | what one step past an absent block leaves out is absent |
| Invariant.NoStrayEntry | weensyos/k-vmiter.cc:14-18 | the check for uninitialised page tables never stops the kernel in a safe state |
| PostOrder.TablesExact | weensyos/k-vmiter.hh:122-131 | the depth-first list holds every table page below the root exactly once, each after all below it |
| PtIterClass.PtIter.constructor | weensyos/k-vmiter.cc:102-105 | what a new iterator has before it is that list |
| PtIterClass.PtIter.Down | weensyos/k-vmiter.cc:107-137 | the stackless loop, restarting from the root at each step up, terminates at the next table of the list |
| PtIterClass.PtIter.Next | weensyos/k-vmiter.hh:306-308 | each step takes exactly the first table off what remains |
| Forking.FreePagetableCounts | weensyos/kernel.cc:538-554 | exactly one count is given back for every page the process uses, and no memory is written |
| KernelClass.WeensyKernel.FreePagetable | weensyos/kernel.cc:538-554 | the two loops over the iterators compute that teardown |
| Calls.ForkCorrect | weensyos/kernel.cc:436-514 | from a safe state fork never stops the kernel, leaves a safe state, keeps every page in use and every other process's mappings; success builds a child that agrees with the parent, failure undoes all but a possible leak |
| ForkCost.ForkSucceeds | weensyos/kernel.cc:436-514 | a fork succeeds if and only if there is a free slot and a free page for each table the child needs and each writable page to copy, and then it takes exactly as many |
| ForkCost.ForkFailureExact | weensyos/kernel.cc:483-493 | a failed fork restores all counts if and only if the free pages do not run out between the copy of the first page at or above 0x200 and the table for it, which is decided by the state before the call; otherwise it fails and exactly one page stays counted |
| LeakCase.LeakFromBoot | weensyos/kernel.cc:483-493 | from every boot state a run of one program start and one fork in which a page leaks |
| Budget.MapCount | weensyos/k-vmiter.cc:52-86 | mapping a page succeeds exactly if there is a free page for each missing table, and takes as many |
| Calls.ExitCorrect | weensyos/kernel.cc:519-530 | exit leaves a safe state with exactly the process's counts given back |
| Calls.ForkExit | weensyos/kernel.cc:436-530 | a fork followed by the child's exit restores every reference count and the process table |
| References.ForkFaithful | weensyos/kernel.cc:470-504 | right after a fork the child has at every user page the parent's bytes and permissions, on a private page if it is writable |
| KernelClass.WeensyKernel.CopyKernelMappings | weensyos/kernel.cc:450-462 | the loop copies the kernel mappings while the parent's iterator stays valid |
| KernelClass.WeensyKernel.CopyUserMappings | weensyos/kernel.cc:470-504 | the loop copies writable pages and shares read-only ones, stopping at the first failure |
| KernelClass.WeensyKernel.SyscallFork | weensyos/kernel.cc:436-514 | the imperative call keeps the invariant and computes the function that ForkCorrect is about |
| KernelClass.WeensyKernel.SyscallExit | weensyos/kernel.cc:519-530 | the same for exit |
| KernelClass.WeensyKernel.SyscallPageAlloc | weensyos/kernel.cc:406-431 | computes the page_alloc function; at a process page that is absent or not shared it never halts and keeps the invariant |
| Allocation.PageAllocCorrect | weensyos/kernel.cc:406-431 | there it maps a zeroed page of its own, or fails without changing any mapping |
| Allocation.PageAllocHalts | weensyos/k-vmiter.cc:56-69 | the assertions stop the kernel exactly when a page was free and the address is misaligned or non-canonical |
| AllocExact.SafeIsSound | weensyos/kernel.cc:104-173 | in a safe state every mapped page is counted once for each mapping, and no process maps anything outside its address space, the kernel's pages or a false console |
| AllocExact.PageAllocExact | weensyos/kernel.cc:406-431 | after a successful call counts are exact and processes confined if and only if it named a process page that was absent or not shared |
| AllocExact.KernelAddressTaken | weensyos/kernel.cc:406-431 | in every safe state with a free page a process that asks for one of the kernel's addresses gets it and can store there |
| AllocExact.KernelAddressFromBoot | weensyos/kernel.cc:406-431 | so from every boot state after one program start |
| AllocExact.RunStaysSound | weensyos/kernel.cc:122-554 | every state reached from boot by allowed events has exact counts and confined processes |
| AllocLeak.PageAllocLoses | weensyos/kernel.cc:406-431 | a successful call loses a page, counted without a reference, if and only if it replaced an unshared process page; memory is sound and nothing is lost if and only if it named an absent process page |
| AllocLeak.ReplacedIsLost | weensyos/kernel.cc:416-428 | the page lost is the one that was mapped at the address, and its count stays one |
| AllocLeak.PageAllocFailure | weensyos/kernel.cc:416-428 | a failed call changes no mapping, and no count if and only if no page was free; otherwise an unreferenced page stays counted |
| AllocLeak.PageAllocSucceeds | weensyos/kernel.cc:406-431 | at an aligned canonical address a call succeeds if and only if there is a free page for the caller and one for each missing table, and then it takes exactly as many |
| AllocLeak.LostFromBoot | weensyos/kernel.cc:416-428 | from every boot state an allowed run of a start and a page_alloc that loses the stack page |
| AllocLeak.FailureFromBoot | weensyos/kernel.cc:416-428 | from every boot state a start after which a page_alloc fails and loses the page it took |
| CountWrap.CountWraps | weensyos/kernel.cc:406-514 | fork, page_alloc over the shared page in the child and its exit, repeated, wrap the count of a page that a process maps read-only just below its stack; one fork and exit later the page is free and still mapped |
| CountWrap.WrapFromBoot | weensyos/kernel.cc:406-514 | from every boot state one program start and 254 such rounds, a fork and an exit lead there |
| Setup.ProcessSetupCorrect | weensyos/kernel.cc:180-249 | starting a program leaves a safe state with one more process, which maps its image, the stack page, the console and the kernel's pages with the right access and nothing else, and the others untouched |
| Layout.StartLayout | weensyos/kernel.cc:180-249 | what a new program finds at each page, in plain numbers: the kernel for the kernel only, the console, image and stack each in a page of its own that was not in use, nothing else |
| Layout.ForkNumber | weensyos/kernel.cc:436-446 | the child gets the lowest free process number from 1 to 15, and without one nothing changes |
| Layout.StoreExact | weensyos/x86-64.h:21-24 | a store by a program changes the one word it names if its page is present, writable and for the user, and faults otherwise |
| StartCost.StartExact | weensyos/kernel.cc:180-249 | a start succeeds if and only if there are six free pages more than image entries, and takes exactly as many |
| StartCost.StartFromBoot | weensyos/kernel.cc:180-249 | so from every boot state there are runs that start a program |
| Runs.StepSafe | weensyos/kernel.cc:122-554 | every allowed event keeps the invariant and, unless it is its own, what a process sees |
| Runs.RunIsolates | weensyos/kernel.cc:122-554 | over any run of events of others a process keeps its mappings and the bytes it sees |
| Runs.RunFromBoot | weensyos/kernel.cc:122-554 | every state reachable from boot is safe |
| Reserved.KernelSpared | weensyos/k-hardware.cc:331-354 | on every run from boot, page 0, the kernel image, the kernel stack and device memory are never counted, never handed out and, but for the console, never written |
| Runs.NeverStops | weensyos/kernel.cc:122-554 | in a safe state no allowed system call stops the kernel |
| References.CountsCoverReferences | weensyos/kernel.cc:122-173 | the count of a page is at least its user mappings plus its places in page tables, and at most PID_MAX, so it never wraps |
| References.KallocUnreferenced | weensyos/kernel.cc:140-147 | the page kalloc overwrites is referenced by nobody |
| References.NoSharedWrites | weensyos/kernel.cc:470-504 | no page but the console is mapped user-writable in two processes |
| Posix.OverlayAt | fileio/impl/naive.c:96-98 | a write past the end leaves zeros in the gap, the data where it was written, and the old bytes elsewhere |
| Posix.OverlayTwice | fileio/impl/naive.c:96-98 | two adjoining writes are one |
| Posix.ReadExact | fileio/impl/naive.c:76-98 | a read returns the bytes at the offset, as many as asked for and left |
| Posix.AnswerExact | fileio/impl/naive.c:76-98 | the answer of each call and where the offset goes: a seek answers its new offset, readc answers -1 exactly at the end |
| FileCache.Stored | fileio/impl/student.c:311-345 | zero-filling and storing in the block is a write to the file as seen |
| FileCache.CachedFile.constructor | fileio/impl/student.c:106-177 | an opened file shows the disk, or nothing after truncation, from offset zero |
| FileCache.CachedFile.Flush | fileio/impl/student.c:380-402 | the disk becomes what was seen, however short the single writes |
| FileCache.CachedFile.Fetch | fileio/impl/student.c:405-421 | the valid part of the cache becomes the file's part of the block |
| FileCache.CachedFile.Seek | fileio/impl/student.c:179-199 | answers, contents and offset as POSIX |
| FileCache.CachedFile.Read | fileio/impl/student.c:261-304 | the recursive read returns what POSIX returns, at any block size, and leaves its offset unless the recorded size is too large |
| FileCache.CachedFile.Write | fileio/impl/student.c:306-376 | the recursive write, hole filling included, has the effect POSIX has if there is data or the position is not past the end; zero bytes past the end are recorded as a larger file |
| FileCache.CachedFile.Readc | fileio/impl/student.c:237-246 | a byte or -1, as POSIX |
| FileCache.CachedFile.Writec | fileio/impl/student.c:248-257 | writes the low byte and returns it, which equals the argument exactly for bytes |
| FileCache.CachedFile.Close | fileio/impl/student.c:201-216 | after closing, the disk holds what was seen |
| FileCache.Session | fileio/impl/student.c:106-402 | for every size of at least 4 and every sequence of calls from open to close without a zero-length write past the end, the file left on disk is that of POSIX, and so is every answer but that of a `writec` outside a byte, which is the low byte |
| FileCache.Departure | fileio/impl/student.c:311-335 | in the excluded case, after any session and for every size, there are calls to go on with that leave another file on disk than POSIX |
| DbMap.GetAfterInsert | kvstore/kvstore/concurrent_kvstore.hpp:59-82 | inserting changes the lookup of its key only |
| DbMap.GetAfterRemove | kvstore/kvstore/concurrent_kvstore.hpp:59-92 | removing makes its key absent and leaves the others |
| KvOps.BodyIsApply | kvstore/kvstore/concurrent_kvstore.cpp:6-126 | the access steps of each operation, run alone, do what the plain map does |
| KvOps.LocksAscend | kvstore/kvstore/concurrent_kvstore.cpp:79-115 | every operation takes its locks in strictly ascending order, none twice |
| KvOps.BucketExact | kvstore/kvstore/concurrent_kvstore.hpp:53-55 | the bucket of a key is the remainder of its hash by 60 |
| KvOps.LocksExact | kvstore/kvstore/concurrent_kvstore.cpp:6-115 | the locks of each operation in terms of the hash alone |
| KvOps.CoveredLocks | kvstore/kvstore/concurrent_kvstore.cpp:103-115 | an operation locks every bucket it touches if and only if it is no MultiPut into the first bucket |
| KvThreads.StepKeeps | kvstore/kvstore/concurrent_kvstore.cpp:6-126 | every step of every thread keeps the relation between the store, the pending bodies and the serial log |
| KvThreads.RunIsSerial | kvstore/kvstore/concurrent_kvstore.cpp:6-126 | for any interleaving of any number of operations the order in which they came to hold all their locks gives the same answers and final contents on a plain map |
| KvThreads.RunIsLinear | kvstore/kvstore/concurrent_kvstore.cpp:6-126 | that one order respects real time at every point of the run: what had finished comes before what was called later |
| KvThreads.NoDeadlock | kvstore/kvstore/concurrent_kvstore.cpp:68-126 | in every reachable state with an unfinished operation some thread can go on |
| KvThreads.WaitsExactly | kvstore/kvstore/concurrent_kvstore.cpp:6-126 | a thread waits exactly while another holds its next lock and one of the two is no lookup |
| KvThreads.ReadersShare | kvstore/kvstore/concurrent_kvstore.cpp:11-81 | two lookups never make each other wait |
| KvRace.RaceRun | kvstore/kvstore/concurrent_kvstore.cpp:103-125 | for every MultiPut into the first bucket a run beside one Append in which the Append overwrites it |
| KvRace.CoveredExact | kvstore/kvstore/concurrent_kvstore.cpp:111-115 | all runs with an operation beside locked ones are serializable if and only if it is no MultiPut with a key whose hash is a multiple of 60 |
| KvStore.BucketMap.GetIfExists | kvstore/kvstore/concurrent_kvstore.hpp:59-67 | the list loop finds what the map holds |
| KvStore.BucketMap.InsertItem | kvstore/kvstore/concurrent_kvstore.hpp:72-82 | the loop updates or appends, and the store holds the updated map |
| KvStore.BucketMap.RemoveItem | kvstore/kvstore/concurrent_kvstore.hpp:86-92 | the key is gone, and the result says whether it was there |
| KvStore.ConcurrentKvStore.Get | kvstore/kvstore/concurrent_kvstore.cpp:6-19 | one thread alone answers as the plain map, with the one lock whose number is the hash modulo 60 |
| KvStore.ConcurrentKvStore.Put | kvstore/kvstore/concurrent_kvstore.cpp:21-30 | the same for Put |
| KvStore.ConcurrentKvStore.Append | kvstore/kvstore/concurrent_kvstore.cpp:32-48 | the same for Append |
| KvStore.ConcurrentKvStore.Delete | kvstore/kvstore/concurrent_kvstore.cpp:50-66 | the same for Delete |
| KvStore.ConcurrentKvStore.MultiGet | kvstore/kvstore/concurrent_kvstore.cpp:68-98 | all values or none, with the locks of exactly the remainders of the keys' hashes by 60 |
| KvStore.ConcurrentKvStore.MultiPut | kvstore/kvstore/concurrent_kvstore.cpp:100-126 | all pairs in order or a refusal, with the locks 1 to 59 |
| KvStore.ConcurrentKvStore.AllKeys | kvstore/kvstore/concurrent_kvstore.cpp:128-135 | with nobody else active, every key once |
| Shards.BucketRoundTrip | kvstore/common/shard.cpp:100-160 | the name of a bucket is read back as the bucket |
| Shards.StrRoundTrip | kvstore/common/shard.cpp:100-160 | the bucket of a name is written as the name |
| Shards.OrderKept | kvstore/common/shard.cpp:100-160 | lexicographic order on names of one length is the order of the buckets |
| Shards.LeqExact | kvstore/common/shard.hpp:66-76 | one string is not above another if it is a prefix or is lower at the first difference |
| Shards.BucketToStrLoop | kvstore/common/shard.cpp:100-128 | the loop computes the name |
| Shards.StrToBucketLoop | kvstore/common/shard.cpp:130-160 | the loop computes the bucket of every upper-case name that is spelled so, whichever letters are in lower case |
| Shards.UpperExact | kvstore/common/shard.cpp:130-160 | the upper-case name is the one that is spelled so; an upper-case name is its own |
| Shards.SplitShardCorrect | kvstore/common/shard.cpp:3-13 | two adjacent shards share out the keys of the old one, the first at most one bucket larger |
| Shards.OverlapMeaning | kvstore/common/shard.cpp:40-78 | the classification never throws, and each of its five answers is given exactly when the ranges lie as it says |
| Shards.SplitInto | kvstore/common/shard.cpp:162-195 | the table of shards for every number up to 36^4, with the least granularity that is enough |
| Shards.SplitPartitions | kvstore/common/shard.cpp:162-195 | every upper-case alphanumeric key long enough is in exactly one shard, and sizes differ by at most one |
| Shards.ShortKeys | kvstore/common/shard.hpp:66-76 | a key shorter than the granularity is in at most one shard, and in none exactly if its name padded with zeros is the first of a shard |
| Dmalloc.BaseAllocator.Malloc | dmalloc/basealloc.cc:28-66 | the block returned overlaps no other; if it was recycled it was large enough and is the only one taken from the waiting ones |
| Dmalloc.BaseAllocator.Free | dmalloc/basealloc.cc:68-81 | a known block waits for recycling, any other pointer is ignored |
| Dmalloc.LiveApart | dmalloc/dmalloc.cc:32-91 | live blocks, with header and footer, never overlap |
| Dmalloc.SumFits | dmalloc/dmalloc.cc:57-61 | blocks that do not overlap fit into the address space together |
| Dmalloc.DebugAllocator.CountersFit | dmalloc/dmalloc.cc:57-61 | so the active counters never wrap |
| Dmalloc.DebugAllocator.Dmalloc | dmalloc/dmalloc.cc:32-91 | failure changes no block; success adds exactly one active block, 48 bytes into one of its size and 56 bytes more; either is one more entry in the record that the statistics are about |
| Dmalloc.DebugAllocator.Dcalloc | dmalloc/dmalloc.cc:197-212 | a product of 2^64 or more is refused and recorded as such; any other request is an allocation of the product's size, refused and recorded just as dmalloc does, exactly if no memory was taken |
| Dmalloc.DebugAllocator.Dfree | dmalloc/dmalloc.cc:102-182 | the outcome of every pointer: null, misaligned and not in the heap exactly by the address; a double free exactly if the header found there names the pointer and is not marked; released exactly if active and below the top of the heap; otherwise not allocated, inside a block if and only if one active block strictly contains it |
| Dmalloc.TotalsExact | dmalloc/dmalloc.cc:41-61 | over any sequence of calls the totals are the numbers and sums of blocks taken and requests refused, modulo 2^64 |
| Dmalloc.RefusedExact | dmalloc/dmalloc.cc:197-204 | so are the bytes refused, counted on from 2^64 - 1 after a product that does not fit |
| Dmalloc.BoundsExact | dmalloc/dmalloc.cc:75-81 | the heap bounds are the lowest address and the highest end of any block ever taken |
| Dmalloc.DebugAllocator.OnlyFloor | dmalloc/dmalloc.cc:144-156 | the block before upper_bound is the only active one that can contain the pointer |
| Dmalloc.ProductCheck | dmalloc/dmalloc.cc:199-204 | the overflow test by division is exact |
| Dmalloc.FreeEmptyBlock | dmalloc/dmalloc.cc:121-125 | the heap test refuses a valid zero-sized block |
| Dmalloc.EmptyBlockFits | dmalloc/dmalloc.cc:32-91 | such a block can be placed at every aligned address with room for header and footer |
| LinkedLists.List.InsertFirst | snake/src/linked_list.c:84-103 | the new element is in front and all pointers are right again |
| LinkedLists.List.InsertLast | snake/src/linked_list.c:120-143 | the new element is last |
| LinkedLists.List.RemoveFirst | snake/src/linked_list.c:261-276 | the first element is taken off |
| LinkedLists.List.RemoveLast | snake/src/linked_list.c:285-308 | the last element is taken off |
| LinkedLists.List.RemoveElement | snake/src/linked_list.c:186-212 | the first match is taken out, wherever it is |
| LinkedLists.List.Reverse | snake/src/linked_list.c:222-253 | swapping the pointers in place reverses the list |
| LinkedLists.List.Get | snake/src/linked_list.c:157-170 | the element at the index, none for any other number |
| LinkedLists.List.GetLast | snake/src/linked_list.c:58-67 | the last element |
| Snake.StepKeeps | snake/src/game.c:25-133 | one update keeps the list and the board in step: distinct adjacent cells that are exactly the flagged ones, one food, same walls and grass, length by score |
| Snake.StepExact | snake/src/game.c:25-133 | one update in rows and columns: where each key sends the head, that the game ends exactly at a wall or a body cell other than the tail, what is in the list and on the board after, and that the score rises by one exactly for food |
| Snake.GameKeeps | snake/src/game.c:25-159 | so does every sequence of updates on any walled board |
| Snake.DefaultGameKeeps | snake/src/game_setup.c:54-139 | in particular from the default board, growing or not |
| Snake.Game.DefaultCells | snake/src/game_setup.c:54-92 | the loops draw the default board |
| Snake.DefaultExact | snake/src/game_setup.c:54-92 | the default board cell by cell, in plain numbers |
| Snake.Game.PlaceFood | snake/src/game.c:142-159 | food goes to a plain or grass cell, or the program ends |
| Snake.Game.Update | snake/src/game.c:25-133 | the call on the array and the linked list computes the step that StepExact and StepKeeps are about |
| Numbers.FromChars | weensyos/lib.cc:253-284 | reads the longest run of digits; out of range exactly when it denotes 2^64 or more, and otherwise its value |
| Numbers.PrintNumber | weensyos/lib.cc:374-403 | the characters before the final NUL are the number, with separators if asked for, and the 32 bytes always suffice; PrintedCharacters says what the characters are |
| Numbers.PrintedCharacters | weensyos/lib.cc:374-403 | each character by its place from the end: a comma or an apostrophe after each full group, else the digit of that power of the base from the table of the case asked for, with no digit too many or too few |
| Numbers.SeparatorPlaces | weensyos/lib.cc:388-401 | counted from the end every fourth character in base 10 and every fifth otherwise is a separator, no other is, and the text does not begin with one |
| Numbers.PrintedStripped | weensyos/lib.cc:388-401 | without its commas or apostrophes the text is the plain digits |
| Numbers.PrintThenRead | weensyos/lib.cc:253-403 | every 64-bit value in base 10, 16 or -16 is read back, all of it |
| Numbers.DigitsExact | weensyos/lib.cc:260-266 | characters get their proper digit values exactly up to base 10, upper-case letters exactly up to base 17 |

## Left out

- WeensyOS registers, scheduling, page faults and the faulted process state, the console, interrupts and devices: only memory, counts and the process table are modelled.
- Bits of page-table entries other than P, W, U, PS and the address are one number; execute-disable is not tracked by the code either.
- Loading a program's bytes in `process_setup`: the copy relies on adjacent physical pages; the mappings and counts of the image and stack pages are modelled, the image contents are not.
- The kernel's own page table: program starts use its identity mapping of the kernel's pages, kernel-only; its construction is not part of this model.
- References.CountsCoverReferences: a leaked page may keep a count without a reference, so the count is a bound from above and not an equality.
- I/O errors, short reads and read-only mode in the file cache; the stack space of the hole-filling buffer; the truncation of offsets to `int` in the value of a seek.
- Key-value store accesses are whole lookups, insertions and removals on one bucket; smaller interleavings inside one access without its lock are not modelled.
- `AllKeys` beside other threads, fairness of the locks, and the locking of the simple store.
- `split_shard` with an explicit split point, sorting of shards, and the controller and network code.
- Dmalloc: overwritten headers and footers, leak reports, and the zeroing of `dcalloc` memory are not modelled.
- Shards.SplitInto: numbers above 36^4 are outside the code's own tables.
- Snake boards read from a compressed string, rendering, names and teardown; a game ends when `place_food` finds no cell.
- Signed reading (`strtol` and the signed `from_chars`) and the rest of the formatting code.
