# Verification of the uC/LIB memory manager, buffer routines and uC/CPU arithmetic

This project models the hand-written core of the repository in Dafny and proves what it
is for.

- **Memory manager** (`lib_mem.c`). `MemLib.dfy` is the library as it runs: descriptors
  (`MemTable.dfy`) with their fields and links, and pointer arrays, updated in place. Each
  method is proved against a value-level specification: the size calculation and the bump
  allocator (`Segments.dfy`), the pools (`Pools.dfy`), and the whole manager as a state
  machine (`Allocator.dfy`), for which whole-run safety is proved. `Answers.dfy` decides every
  answer of an allocation and of a creation in unbounded lengths, and `Refusals.dfy` says what
  the error returns mean to the caller. `Word32.dfy` holds the 32-bit arithmetic.
- **Buffer routines** (`lib_mem.c`). `Buffers.dfy` has memory as an array of octets and the
  three-phase loops of Mem_Set, Mem_Copy, Mem_Move and Mem_Cmp, for any word of 1 to 128
  octets. Words can be read and written at aligned addresses only: that is a precondition of
  every word access. `Octets.dfy` relates words to octets.
- **Data order** (`lib_mem.h`). `Endian.dfy`, for both CPU orders and any value size.
- **Random numbers** (`lib_math.c`). `Rand.dfy` with the number theory of `Bits.dfy`.
- **Timestamps and interrupts-disabled time** (`cpu_core.c`). `Timestamp.dfy` and
  `IntDis.dfy`, for every timer width; `TmrCounts.dfy` is the timer.
- **Leading and trailing zeros** (`cpu_core.c`). `BitCount.dfy`.

Conventions. Sizes and addresses are 32 bits wide and every operation that can wrap is
written with its reduction. Address 0 is the null pointer. The configuration switches are
parameters: argument checks (LIB_MEM_CFG_ARG_CHK_EXT_EN) are the flag `chk`, and both
settings are covered; the C bodies are modelled where an assembly variant exists. A pointer
has 4 octets. The timer is a parameter of each call: the true count, which the code sees
modulo the timer width. A critical section is one atomic step.

In `Segments` and `Pools` remainders and products of two variables are defined by repeated
subtraction and addition; `Word32.ModIsRemainder` and `Word32.TimesIsProduct` show that they
are the usual ones.

## What the code does not do

Where a promised property fails, the model keeps the code as it is, gives a concrete input
that breaks it, and states the exact condition under which it holds.

- The product test of Mem_SegCalcTotSize does not see every wrap
  (`Segments.CalcTotSizeMissesWrap`, exact condition in `Segments.CalcTotSizeHonest`).
- Mem_PoolCreate is not all or nothing. A request that passes the size checks may still be
  refused late, because a wrap went unnoticed or because a segment that ends at the top of the
  address space would be filled exactly (exact condition in
  `Allocator.CreateSucceedsUnlessLate` and `Refusals.CreateSucceedsIff`). Refused in the block
  loop, it keeps its pointer array (`Refusals.UnnoticedWrapRefusedLate`,
  `Refusals.LateRefusalHappens`); refused the pointer array itself, it has changed nothing
  (`Refusals.PtrsRefusedAtTop`, `Refusals.UnnoticedSumRefusedLate`). The exact condition for a
  failed call to change nothing is `Allocator.FailureChangesNothing`.
- The same blind spot lets Mem_PoolCreate grant 2^30 + 2 blocks with a pointer array of 8
  octets, even with argument checks (`Refusals.PtrArrayWraps`, exact condition in
  `Refusals.PtrArrayExact`); the size of the pointer array is therefore a condition on the
  caller (`Allocator.PtrsSizeOk`).
- Without argument checks one allocation whose gap and size wrap is granted fewer octets than
  it hands out (`Segments.UncheckedGrantWraps`, exact condition in `Segments.GrantTooSmall`);
  that these fit in 32 bits is therefore a condition on the caller.
- Mem_SegGetSizeRem wraps to a large size when the alignment gap is larger than what remains
  (`Segments.SizeRemWrapped`), and with argument checks it is one octet too large for a segment
  that ends at the top of the address space (`Segments.SizeRemTopRefused`; exact condition in
  `Segments.SizeRemIsThreshold`).
- The address test of a pool accepts a wrong address for some alignments that do not divide
  2^32 (`Pools.AlignThreeMistaken`, exact condition in `Pools.IsValidAddrExact`).
- Dedicated memory that is exactly the heap records the wrong start of the pool
  (`Refusals.HeapPairMisplaced`, exact condition in `Refusals.HeapPairPool`).
- Without argument checks a free of a block that is not in use destroys the pool
  (`Pools.UncheckedDoubleFree`, exact condition in `Pools.UncheckedFreeKeepsPool`).
- An interrupts-disabled section that ends between the two windows of
  CPU_IntDisMeasMaxCurReset is neither reported nor kept as the current maximum
  (`IntDis.ResetMissesSection`, exact condition in `IntDis.ResetReports`).
- Note 2 of Mem_Copy promises overlapping copies to a lower address; those and all disjoint
  ones are exactly the copies that work (`Buffers.CopyFwdExact`; what the others do is
  `Buffers.CopyFwdRepeats`).
- IEEE Std 1003.1-2004 asks of rand() a period of at least 2^32; the period is exactly 2^31,
  as `lib_math.h` concedes, and a seed from 2^31 on never returns.
- With 16-bit CPU data, MEM_VAL_BIG_TO_LITTLE_32 exchanges octets within the halves only
  (`Endian.BigToLittleHalvesOnly`, exact condition in `Endian.BigToLittleReverses`).

## Model

| member | source | states |
|---|---|---|
| `Word32.AlignUpLeast` | UCOSIII/uC-LIB/lib_mem.c:2277-2291 | the if-else that aligns an address or a size yields the least multiple of the alignment not below it |
| `Segments.CalcTotSizeFits` | UCOSIII/uC-LIB/lib_mem.c:2260-2329 | whenever the unbounded total fits in 32 bits the answer is exactly that total (no false alarm), and without argument checks it is the total reduced to 32 bits |
| `Segments.CalcTotSizeHonest` | UCOSIII/uC-LIB/lib_mem.c:2292-2326 | the answer is the exact total, or a 0 for a total that does not fit, if and only if the total fits or one of the visible overflow conditions holds |
| `Segments.CalcTotSizeExact` | UCOSIII/uC-LIB/lib_mem.c:2260-2329 | every answer: a total that fits in 32 bits, 0 for one that the overflow tests see not to fit, and the total reduced to 32 bits for one that they do not see |
| `Segments.CalcTotSizeMissesWrap` | UCOSIII/uC-LIB/lib_mem.c:2307-2312 | at every address, with argument checks and without, 65538 blocks of 65537 octets wrap past the product test and are sized 0x30002 |
| `Segments.SegAllocOutcome` | UCOSIII/uC-LIB/lib_mem.c:2367-2414 | one allocation, with all its wrapping tests, is granted exactly if gap and size fit in what remains and do not end at the very top of the address space; then the address is aligned and exactly gap + size octets are taken, else nothing changes |
| `Segments.GrantTooSmall` | UCOSIII/uC-LIB/lib_mem.c:2392-2410 | a granted allocation takes fewer octets than it hands out if and only if gap and size wrap, which happens without argument checks only |
| `Segments.UncheckedGrantWraps` | UCOSIII/uC-LIB/lib_mem.c:2392-2410 | a concrete segment that, without argument checks, grants 2^32 - 1 octets for 1 octet |
| `Segments.SizeRemIsThreshold` | UCOSIII/uC-LIB/lib_mem.c:951-964 | with and without argument checks and for every segment: the reported size is the exact threshold of an allocation at that alignment if and only if the alignment gap fits in what remains and, with argument checks, the segment does not end at the top of the address space with room left behind the gap |
| `Segments.SizeRemExact` | UCOSIII/uC-LIB/lib_mem.c:951-964 | every answer: what remains behind the alignment gap, or 2^32 less what the gap exceeds it by |
| `Segments.SizeRemWrapped` | UCOSIII/uC-LIB/lib_mem.c:951-964 | a concrete segment whose reported size has wrapped to 2^32 - 12 while not one octet can be had |
| `Segments.SizeRemTopRefused` | UCOSIII/uC-LIB/lib_mem.c:951-964 | a concrete segment at the top of the address space that reports 4 octets and, with argument checks, refuses them |
| `Segments.AllocBlksLayout` | UCOSIII/uC-LIB/lib_mem.c:1475-1496 | for every number of blocks, totals beyond 32 bits included, the block loop gets all n blocks exactly if the segment grants the unbounded total, and then block i lies at alignUp(start) + i * alignUp(size) and exactly the total is taken; without argument checks only the first block with its gap must fit in 32 bits |
| `Segments.AllocBlksStops` | UCOSIII/uC-LIB/lib_mem.c:1475-1494 | after the first refused block nothing more is allocated |
| `Segments.AllocBlksRefused` | UCOSIII/uC-LIB/lib_mem.c:1475-1494 | when the total is not granted the block loop stops with exactly as many blocks as the segment grants, laid out one stride apart, and has taken nothing else |
| `Segments.HugeStrideNeverFits` | UCOSIII/uC-LIB/lib_mem.c:1475-1496 | blocks whose distance reaches 2^32 never fit: several exceed 32 bits, and a single one does not fit behind the first aligned address |
| `Pools.PtrsDistinct` | UCOSIII/uC-LIB/lib_mem.c:1475-1496 | the pointer array of a sound pool never holds a block twice |
| `Pools.PtrsPartition` | UCOSIII/uC-LIB/lib_mem.c:1704-1718 | the entries before BlkIx and those from BlkIx on partition the laid out blocks into free and used |
| `Pools.NbrAvailIsFreeCount` | UCOSIII/uC-LIB/lib_mem.c:1616 | BlkIx is the size of the free set, and BlkNbr - BlkIx that of the used set |
| `Pools.GetMovesOneBlock` | UCOSIII/uC-LIB/lib_mem.c:1687-1724 | a get fails exactly for a wrong size (with argument checks) or an empty free set, with those errors; otherwise it hands out a free block that was not used, and moves that block and no other to the used set; a refused get changes nothing |
| `Pools.FreeMovesOneBlock` | UCOSIII/uC-LIB/lib_mem.c:1919-1941 | freeing a used block succeeds, swaps it with the first used entry, and moves exactly that block back to the free set |
| `Pools.SwapKeepsPool` | UCOSIII/uC-LIB/lib_mem.c:1930-1941 | the swap keeps the pointer array a permutation of the laid out blocks |
| `Pools.IsValidAddrExact` | UCOSIII/uC-LIB/lib_mem.c:2121-2149 | the address test accepts exactly the laid out block addresses if and only if 2^32 mod stride is 0 or larger than the leading alignment gap |
| `Pools.ValidAfterFirst` | UCOSIII/uC-LIB/lib_mem.c:2132-2149 | from the first block on the address test is exact, for every alignment |
| `Pools.ValidInGap` | UCOSIII/uC-LIB/lib_mem.c:2121-2149 | inside the leading gap the wrapped difference makes the test accept exactly the address that lies 2^32 mod stride below the first block, which is never a block |
| `Pools.DividingAlignIsSafe` | UCOSIII/uC-LIB/lib_mem.c:2138-2146 | every alignment that divides 2^32 satisfies that condition |
| `Pools.AlignThreeMistaken` | UCOSIII/uC-LIB/lib_mem.c:2121-2149 | with alignment 3 there is a pool whose address test accepts an address in the gap |
| `Pools.FreeRejectsOthers` | UCOSIII/uC-LIB/lib_mem.c:1890-1937 | with argument checks the free of anything but a used block, and without them every free of a pool with no block in use, changes nothing; the error is that of a null pointer, of the address test, of a free block, POOL_FULL or INVALID_POOL, in terms of the sets of blocks; on a pool with an exact address test the checks never leave it at POOL_FULL or INVALID_POOL |
| `Pools.FreeAcceptsUsed` | UCOSIII/uC-LIB/lib_mem.c:1890-1917 | every used block passes the address test and the double-free test and is freed, with argument checks and without |
| `Pools.UncheckedFreeKeepsPool` | UCOSIII/uC-LIB/lib_mem.c:1919-1941 | without argument checks the pointer array stays a permutation of the blocks if and only if no block is in use or the freed block is; otherwise the block replaces the first used entry and success is reported |
| `Pools.UncheckedDoubleFree` | UCOSIII/uC-LIB/lib_mem.c:1919-1941 | a concrete double free that puts one block into the pointer array twice and loses another |
| `Pools.IxGetThenAtIx` | UCOSIII/uC-LIB/lib_mem.c:2043-2066 | every used block has an index below the number of used blocks, and Mem_PoolBlkGetUsedAtIx maps it back to the block |
| `Pools.AtIxThenIxGet` | UCOSIII/uC-LIB/lib_mem.c:1795-1826 | for every 32-bit index, including those for which the subtraction wraps: exactly the indices below the number of used blocks name a block, a used one, and Mem_PoolBlkIxGet gives the index back |
| `Pools.IxGetRejectsOthers` | UCOSIII/uC-LIB/lib_mem.c:2015-2066 | anything but a used block gets the invalid index and the error that a checked free of it would get (without checks POOL_FULL or INVALID_POOL); on a pool with an exact address test the checks never leave it at POOL_FULL or INVALID_POOL |
| `Pools.GetKeepsIndices` | UCOSIII/uC-LIB/lib_mem.c:1717-1718 | a get leaves all used indices as they are and gives the new block the next one |
| `Pools.FreeReindexesOne` | UCOSIII/uC-LIB/lib_mem.c:1919-1941 | a free gives the index of the freed block to the block that had the last index, and no other remaining block changes its index |
| `Allocator.InitWellFormed` | UCOSIII/uC-LIB/lib_mem.c:163-197 | the state after Mem_Init satisfies the invariant |
| `Allocator.HeapAllocWellFormed` | UCOSIII/uC-LIB/lib_mem.c:741-821 | a heap allocation keeps the invariant; when granted it adds one aligned block disjoint from everything handed out, and otherwise it changes nothing |
| `Allocator.PtrsGranted` | UCOSIII/uC-LIB/lib_mem.c:1291-1317 | once the checks have passed, the allocation of the pointer array is granted with its exact octets unless it does not fit in the heap or would fill it to the top of the address space, and a refusal changes nothing |
| `Allocator.PlanInHeapRoom` | UCOSIII/uC-LIB/lib_mem.c:1299-1345 | for a pool in the heap whose total has not wrapped (with argument checks it cannot have) the checks leave room for the pointer array and more |
| `Allocator.BlksGranted` | UCOSIII/uC-LIB/lib_mem.c:1467-1496 | once the checks have passed and the pointer array is granted, all blocks are granted, one stride apart, exactly if the request is not one of the late refusals |
| `Allocator.CreateSucceedsUnlessLate` | UCOSIII/uC-LIB/lib_mem.c:1446-1496 | after the size checks the creation succeeds if and only if the total of what it takes from the segment fits in 32 bits, the pointer array fits in the heap, and no segment would be filled exactly to the top of the address space; then the new pool, its layout and the octets taken are as calculated, and otherwise there is no new pool |
| `Allocator.CreateAllOrNothing` | UCOSIII/uC-LIB/lib_mem.c:1198-1546 | exactly which calls succeed and the whole state then; an error of the size checks has changed neither the segments nor the pools |
| `Allocator.FailureChangesNothing` | UCOSIII/uC-LIB/lib_mem.c:1198-1546 | all or nothing, exactly: a creation that reports an error has left the state unchanged if and only if the size checks rejected it or the pointer array was refused; a refusal in the block loop always changes it, in the heap as in dedicated memory |
| `Allocator.HeapKeepsPtrs` | UCOSIII/uC-LIB/lib_mem.c:1446-1494 | whatever becomes of the blocks, the octets of a granted pointer array stay taken from the heap |
| `Allocator.CreateWellFormed` | UCOSIII/uC-LIB/lib_mem.c:1198-1546 | every creation, successful or not, keeps the invariant |
| `Allocator.GetWellFormed` | UCOSIII/uC-LIB/lib_mem.c:1659-1725 | every get keeps the invariant |
| `Allocator.GetIsFresh` | UCOSIII/uC-LIB/lib_mem.c:1704-1718 | a block handed out is aligned, inside its segment, and disjoint from every live heap block, pointer array and used pool block |
| `Allocator.FreeWellFormed` | UCOSIII/uC-LIB/lib_mem.c:1859-1946 | every free the caller is allowed keeps the invariant |
| `Allocator.RunWellFormed` | UCOSIII/uC-LIB/lib_mem.c:163-197 | every state of every run from Mem_Init satisfies the invariant |
| `Allocator.RunSafe` | UCOSIII/uC-LIB/lib_mem.c:741-821 | in every reachable state all live heap blocks, pointer arrays and used pool blocks are aligned as requested, inside their segment and pairwise disjoint |
| `Allocator.StepAccumulates` | UCOSIII/uC-LIB/lib_mem.c:1198-1546 | no call takes a segment, a heap block or a pool back, and a pool keeps its place and geometry |
| `Allocator.RunAccumulates` | UCOSIII/uC-LIB/lib_mem.c:1198-1546 | the same between any two states of a run |
| `Answers.HeapAllocAnswer` | UCOSIII/uC-LIB/lib_mem.c:741-821 | every answer in unbounded integers, with the error, the octets required and the whole state: the missing argument, HEAP_OVF when gap and size exceed 32 bits, HEAP_EMPTY with what is missing, HEAP_EMPTY at the top of the address space, or the block at the first free aligned address |
| `Answers.CreateRejectsArgs` | UCOSIII/uC-LIB/lib_mem.c:1250-1280 | with argument checks the first missing argument is reported with its own error, and nothing changes |
| `Answers.CreateRejectsMemory` | UCOSIII/uC-LIB/lib_mem.c:1344-1395 | dedicated memory beyond the address space is INVALID_BLK_ADDR, and memory that meets a segment it is not identical to is INVALID_SEG_OVERLAP; nothing changes |
| `Answers.HeapPoolAnswer` | UCOSIII/uC-LIB/lib_mem.c:1286-1496 | every answer for a pool in the heap, in unbounded lengths: HEAP_EMPTY with the octets missing when pointer array and blocks fit in 32 bits but not in the heap; HEAP_OVF exactly when the tests see an overflow; what is reported of a wrapped total; the refused pointer array; the refused blocks; or success |
| `Answers.DedicatedPoolAnswer` | UCOSIII/uC-LIB/lib_mem.c:1402-1496 | every answer for a pool in dedicated memory, in unbounded lengths: HEAP_OVF, HEAP_EMPTY with the octets the pointer array misses, SEG_OVF, SEG_EMPTY with the octets the blocks miss, the refused pointer array with its size, the refused blocks, or success |
| `Answers.BlksRefusedAnswer` | UCOSIII/uC-LIB/lib_mem.c:1475-1494 | a creation refused in the block loop has taken exactly the pointer array and as many blocks as the segment grants, and reports SEG_EMPTY with the octets calculated for the remaining blocks, less what remains of the segment if that is less |
| `Refusals.HeapEmptyReqdIsLeast` | UCOSIII/uC-LIB/lib_mem.c:786-814 | whenever the heap does not grant gap and size, which fit in 32 bits, HEAP_EMPTY is reported, with the least extra heap with which the same call succeeds (except for filling the heap exactly to the top of the address space) |
| `Refusals.HeapAllocSucceedsIff` | UCOSIII/uC-LIB/lib_mem.c:741-821 | a heap allocation succeeds if and only if size and alignment are given and gap and size fit (and do not end at the very top of the address space); the block is the first free aligned address |
| `Refusals.CreateSucceedsIff` | UCOSIII/uC-LIB/lib_mem.c:1198-1546 | a creation succeeds if and only if, in unbounded integers, the sizes are given, dedicated memory lies in the address space and is a listed segment or meets none, and pointer array and blocks fit with their gaps (and do not end at the very top of the address space) |
| `Refusals.CreateReqdIsLeast` | UCOSIII/uC-LIB/lib_mem.c:1335-1422 | whenever the heap is too small for the pool, or for its pointer array, HEAP_EMPTY is reported with the least extra heap with which its test no longer fires; with x octets fewer, exactly the rest is reported |
| `Refusals.HeapPoolReqdIsLeast` | UCOSIII/uC-LIB/lib_mem.c:1335-1341 | a pool in the heap that is too small for it: HEAP_EMPTY is reported, and with x more octets of heap the creation succeeds if and only if x is at least the octets reported, the total has not wrapped, and the heap is not filled exactly to the top of the address space |
| `Refusals.PtrsReqdIsLeast` | UCOSIII/uC-LIB/lib_mem.c:1415-1422 | a pool in dedicated memory whose pointer array does not fit in the heap: HEAP_EMPTY is reported, and with x more octets of heap the creation succeeds if and only if x is at least the octets reported (not filling to the top), the bigger heap does not run into the dedicated memory, and the blocks fit there |
| `Refusals.SegReqdIsLeast` | UCOSIII/uC-LIB/lib_mem.c:1437-1442 | a pool in dedicated memory that is too small: SEG_EMPTY is reported, and with x more octets there the creation succeeds if and only if x is at least the octets reported (not filling to the top), the block total has not wrapped, the pointer array is granted and a bigger new segment meets no other |
| `Refusals.LateRefusalHappens` | UCOSIII/uC-LIB/lib_mem.c:1475-1494 | a concrete creation that passes the size checks, is refused late, and leaves its pointer array allocated |
| `Refusals.UnnoticedWrapRefusedLate` | UCOSIII/uC-LIB/lib_mem.c:1475-1494 | with argument checks and without: a concrete creation in dedicated memory whose block total wraps unnoticed passes the size checks, is refused late, and leaves its pointer array allocated |
| `Refusals.PtrsRefusedAtTop` | UCOSIII/uC-LIB/lib_mem.c:1446-1470 | a concrete late refusal that changes nothing: the pointer array alone would fill the heap to the top of the address space |
| `Refusals.UnnoticedSumRefusedLate` | UCOSIII/uC-LIB/lib_mem.c:1320-1345 | without argument checks: a concrete creation in the heap whose sum of pointer array and blocks wraps passes the size checks, and is refused late with nothing changed |
| `Refusals.LateKeepsPtrs` | UCOSIII/uC-LIB/lib_mem.c:1446-1494 | every late refusal in dedicated memory after a granted pointer array leaves exactly the octets of the pointer array taken |
| `Refusals.PtrArrayWraps` | UCOSIII/uC-LIB/lib_mem.c:1402-1496 | a concrete creation with argument checks that grants 2^30 + 2 blocks with a pointer array of 8 octets, because the wrap of its total goes unnoticed |
| `Refusals.PtrArrayExact` | UCOSIII/uC-LIB/lib_mem.c:1402-1496 | with argument checks and without, for a pool in the heap, in a listed segment or in new dedicated memory: a granted pool has a pointer array too small for its entries, which runs past what the heap has handed out, if and only if 4 times the number of blocks reaches 2^32, and exactly these grants are excluded by the condition on the caller |
| `Refusals.ProceededIsCreate` | UCOSIII/uC-LIB/lib_mem.c:1198-1546 | for requests within the conditions on the caller, passing the checks without those conditions is passing the checks of the call, with the same result |
| `Refusals.HeapPairBlks` | UCOSIII/uC-LIB/lib_mem.c:1425-1496 | when dedicated memory is exactly the heap, the recorded pool start is the address before the pointer array while the blocks lie behind it |
| `Refusals.HeapPairPool` | UCOSIII/uC-LIB/lib_mem.c:1425-1496 | such a pool is sound if and only if the pointer array fits in the alignment gap in front of the first block |
| `Refusals.HeapPairMisplaced` | UCOSIII/uC-LIB/lib_mem.c:1425-1546 | a concrete such pool whose recorded start is not where its block is |
| `MemTable.MemPool.SetUpHeap` | UCOSIII/uC-LIB/lib_mem.c:169-192 | the heap descriptor represents an untouched segment and names itself as head |
| `MemTable.MemPool.BlkIsValidAddr` | UCOSIII/uC-LIB/lib_mem.c:2105-2152 | the descriptor-level address test computes the wrapping test on the abstract pool |
| `MemTable.MemPool.FindUsedBlk` | UCOSIII/uC-LIB/lib_mem.c:1920-1927 | the loop finds the first used entry that holds the block, or none |
| `MemTable.MemPool.IsFreeBlk` | UCOSIII/uC-LIB/lib_mem.c:1905-1911 | the loop answers whether the block is among the free entries |
| `MemTable.MemPool.CheckUsedBlk` | UCOSIII/uC-LIB/lib_mem.c:1898-1911 | address test, then double-free test, with their errors |
| `MemTable.MemPool.TakeLastFree` | UCOSIII/uC-LIB/lib_mem.c:1717-1718 | hands out the entry just before BlkIx and lowers BlkIx |
| `MemTable.MemPool.SwapAndFree` | UCOSIII/uC-LIB/lib_mem.c:1930-1941 | the in-place exchange in the pointer array and the raised BlkIx |
| `MemTable.MemPool.Configure` | UCOSIII/uC-LIB/lib_mem.c:1535-1545 | the configured descriptor represents the new abstract pool, all blocks free |
| `MemTable.MemPool.MemSegAlloc` | UCOSIII/uC-LIB/lib_mem.c:2367-2414 | the fields SegAddrNextAvail and SegSizeRem follow the abstract allocation on every path |
| `MemTable.MemPool.Clear` | UCOSIII/uC-LIB/lib_mem.c:1016-1039 | every field of the descriptor is reset |
| `MemLib.MemLib.constructor` | UCOSIII/uC-LIB/lib_mem.c:163-197 | Mem_Init: the table is the heap alone, and the whole invariant holds |
| `MemLib.MemLib.MemHeapAlloc` | UCOSIII/uC-LIB/lib_mem.c:741-821 | the heap descriptor is updated in place exactly as the abstract allocation says, with its result, octets required and error; the invariant is kept |
| `MemLib.MemLib.MemSegGetSizeRem` | UCOSIII/uC-LIB/lib_mem.c:900-970 | for every argument the error, and for the heap and every created pool the remaining size of the segment it is in |
| `MemLib.MemLib.MemPoolClr` | UCOSIII/uC-LIB/lib_mem.c:1003-1040 | a null pointer is reported, any other descriptor is cleared |
| `MemLib.MemLib.SearchSegs` | UCOSIII/uC-LIB/lib_mem.c:1346-1392 | the search terminates; the three-way test with its early exit reports an overlap if and only if the range meets a listed segment and is not identical to one, finds a segment if and only if base and size match, and otherwise yields the place that keeps the list ascending |
| `MemLib.MemLib.PlanHeapPool` | UCOSIII/uC-LIB/lib_mem.c:1291-1341 | the checks for a pool in the heap decide as the abstract plan does |
| `MemLib.MemLib.PlanDedicatedPool` | UCOSIII/uC-LIB/lib_mem.c:1342-1442 | the search and the checks for dedicated memory decide as the abstract plan does, and leave the segment to use |
| `MemLib.MemLib.TakeBlks` | UCOSIII/uC-LIB/lib_mem.c:1475-1496 | the block loop over the descriptor and the pointer array allocates what the abstract loop allocates |
| `MemLib.MemLib.TakePoolBlks` | UCOSIII/uC-LIB/lib_mem.c:1475-1496 | the blocks of a pool are taken as the abstract commit says, on the success and on the refusal path |
| `MemLib.MemLib.TakeAll` | UCOSIII/uC-LIB/lib_mem.c:1446-1496 | pointer array and blocks are taken as the abstract commit says, on the success and on both refusal paths |
| `MemLib.MemLib.LinkBetween` | UCOSIII/uC-LIB/lib_mem.c:1500-1513 | linking a descriptor between its neighbours gives the doubly linked list with it inserted |
| `MemLib.MemLib.PutInColumn` | UCOSIII/uC-LIB/lib_mem.c:1515-1530 | linking a pool in front of a column gives the doubly linked column with it in front |
| `MemLib.MemLib.AddAsSegment` | UCOSIII/uC-LIB/lib_mem.c:1500-1545 | a pool added as a new segment: the table grows by it at its place, all other lists keep their order, and the invariant links hold again |
| `MemLib.MemLib.AddToSegment` | UCOSIII/uC-LIB/lib_mem.c:1515-1545 | a pool added to a listed segment: the column of that segment grows by it in front, all other lists keep their order, and the invariant links hold again |
| `MemLib.MemLib.MemPoolCreate` | UCOSIII/uC-LIB/lib_mem.c:1198-1546 | the whole function: result, octets required, error and new abstract state are those of the abstract creation; on an error no list and no table pointer has changed, and the descriptor has no type and no link; on success the table has grown by exactly this pool; the invariant is kept |
| `MemLib.MemLib.MemPoolBlkGetNbrAvail` | UCOSIII/uC-LIB/lib_mem.c:1582-1625 | the size of the free set of the pool, or the error for what is not a pool |
| `MemLib.MemLib.MemPoolBlkGet` | UCOSIII/uC-LIB/lib_mem.c:1659-1725 | block, error and new state are those of the abstract get, with the order of the checks; the invariant is kept |
| `MemLib.MemLib.MemPoolBlkFree` | UCOSIII/uC-LIB/lib_mem.c:1859-1946 | error and new state are those of the abstract free, with the order of the checks; the invariant is kept |
| `MemLib.MemLib.MemPoolBlkIxGet` | UCOSIII/uC-LIB/lib_mem.c:1986-2075 | index and error are those of the abstract function |
| `MemLib.MemLib.MemPoolBlkGetUsedAtIx` | UCOSIII/uC-LIB/lib_mem.c:1763-1828 | block and error are those of the abstract function |
| `MemLib.MemLib.Conserved` | UCOSIII/uC-LIB/lib_mem.c:2395-2411 | in every listed segment (SegAddrNextAvail - SegAddr) + SegSizeRem = SegSizeTot, in wrapping arithmetic |
| `MemLib.MemLib.TableSound` | UCOSIII/uC-LIB/lib_mem.c:1356-1513 | following the table from Mem_PoolTbl meets all segments in ascending order without overlap, and the previous links lead back |
| `MemLib.MemLib.ColumnSound` | UCOSIII/uC-LIB/lib_mem.c:1515-1536 | following a column meets pools that name its head, the previous links lead back, and no pool is in two columns |
| `Buffers.FillWord` | UCOSIII/uC-LIB/lib_mem.c:290-294 | the fill loop builds the word whose octets all are the value |
| `Buffers.MemSet` | UCOSIII/uC-LIB/lib_mem.c:265-318 | exactly the size octets of the buffer hold the value afterwards, for every address, alignment, size and word width; words are stored at aligned addresses only |
| `Buffers.FilledAt` | UCOSIII/uC-LIB/lib_mem.c:265-318 | octet by octet: the value inside the buffer, the old octet outside |
| `Buffers.CopyFwdMoves` | UCOSIII/uC-LIB/lib_mem.c:344-356 | the octet-by-octet copy delivers the old source contents unless the destination starts inside the source |
| `Buffers.CopyFwdRepeats` | UCOSIII/uC-LIB/lib_mem.c:344-356 | when the destination starts inside the source, the first dest - src octets are repeated over it |
| `Buffers.CopyFwdExact` | UCOSIII/uC-LIB/lib_mem.c:344-356 | the copy is right whatever the memory holds if and only if the destination does not start inside the source |
| `Buffers.CopyAligned` | UCOSIII/uC-LIB/lib_mem.c:412-439 | leading octets and then words equal the octet-by-octet copy, for buffers of the same alignment offset |
| `Buffers.MemCopy` | UCOSIII/uC-LIB/lib_mem.c:375-446 | the three-phase copy equals the octet-by-octet copy from the lowest address, for every alignment and every overlap, with the wrapping gap test; with argument checks, an empty copy or a null pointer changes nothing |
| `Buffers.MoveAligned` | UCOSIII/uC-LIB/lib_mem.c:536-561 | backward octets and then words deliver the old source contents |
| `Buffers.MemMove` | UCOSIII/uC-LIB/lib_mem.c:488-569 | dest holds the old contents of src for every size and every overlap in either direction, and nothing else changes; with argument checks, an empty move or a null pointer changes nothing; words are accessed at aligned addresses only |
| `Buffers.MovedAt` | UCOSIII/uC-LIB/lib_mem.c:488-569 | octet by octet: the old octet of the source inside the destination, the old octet outside |
| `Buffers.CmpAligned` | UCOSIII/uC-LIB/lib_mem.c:648-684 | backward octets and then words compare the tails |
| `Buffers.MemCmp` | UCOSIII/uC-LIB/lib_mem.c:614-699 | yes if and only if all octets are equal; an empty comparison is yes, a null pointer otherwise no |
| `Octets.ValueInjective` | UCOSIII/uC-LIB/lib_mem.c:674 | two words differ if and only if some octet differs |
| `Endian.CopyIntu` | UCOSIII/uC-LIB/lib_mem.h:897-923 | both loops, with the wrapping index, write the octets kept or reversed, for every size and both CPU orders, and nothing else |
| `Endian.ConvertedTwice` | UCOSIII/uC-LIB/lib_mem.h:1067-1069 | copying with GET and back with SET restores the octets |
| `Endian.ConvertedDecodes` | UCOSIII/uC-LIB/lib_mem.h:897-923 | what the CPU reads in its own order after the copy is the value the source holds in the given order |
| `Endian.ConvertedEncodes` | UCOSIII/uC-LIB/lib_mem.h:1067-1069 | the octets of a CPU value become those of the same value in the given order |
| `Endian.GetIsValue` | UCOSIII/uC-LIB/lib_mem.h:516-536 | the 16- and 32-bit reads are the value of the octets in the given order, as for the copies |
| `Endian.Set16` | UCOSIII/uC-LIB/lib_mem.h:612-627 | the two octets of the value in the given order are written, and nothing else |
| `Endian.Set32` | UCOSIII/uC-LIB/lib_mem.h:617-632 | the four octets of the value in the given order are written, and nothing else |
| `Endian.GetAfterSet` | UCOSIII/uC-LIB/lib_mem.h:516-632 | a read after a set returns the value, and setting what was read changes nothing |
| `Endian.BigToLittleOctets` | UCOSIII/uC-LIB/lib_mem.h:403-429 | what the masks and shifts do to the four octets, for each CPU data size |
| `Endian.BigToLittleTwice` | UCOSIII/uC-LIB/lib_mem.h:403-433 | converting twice gives the value back for each CPU data size |
| `Endian.BigToLittleReverses` | UCOSIII/uC-LIB/lib_mem.h:403-429 | the conversion reverses the octets on 32- and 64-bit CPUs; with 16-bit data exactly for values with equal halves; with 8-bit data exactly for palindromic octets |
| `Endian.BigToLittleHalvesOnly` | UCOSIII/uC-LIB/lib_mem.h:416-422 | a concrete value: with 16-bit data 0x01020304 becomes 0x02010403 |
| `Rand.Math.constructor` | UCOSIII/uC-LIB/lib_math.c:144-147 | the initial seed is 1, as if it had been set to 1 |
| `Rand.Math.RandSetSeed` | UCOSIII/uC-LIB/lib_math.c:172-180 | the current seed is the given one |
| `Rand.Math.Rand` | UCOSIII/uC-LIB/lib_math.c:212-226 | returns and stores the next number of the sequence |
| `Rand.SeedStep` | UCOSIII/uC-LIB/lib_math.c:269-277 | the 32-bit wrapping arithmetic gives (a * seed + b) mod 2^31 |
| `Rand.NthIsLow` | UCOSIII/uC-LIB/lib_math.c:212-226 | the numbers generated are the 31 low bits of the unbounded sequence ax + b |
| `Rand.LowPeriod` | UCOSIII/uC-LIB/lib_math.c:269-277 | for any a = 1 mod 4 and odd b the k low bits return to their value after n steps if and only if 2^k divides n |
| `Rand.LowReached` | UCOSIII/uC-LIB/lib_math.c:269-277 | for such a and b every k-bit pattern appears within 2^k steps |
| `Rand.FullPeriod` | UCOSIII/uC-LIB/lib_math.c:212-226 | from any point the sequence is at the same number again after n calls if and only if n is a multiple of 2^31 |
| `Rand.EveryValueOnce` | UCOSIII/uC-LIB/lib_math.c:212-226 | every value from 0 to RAND_LCG_PARAM_M is generated exactly once in any 2^31 successive calls, from any seed |
| `Rand.LowBitsPeriod` | UCOSIII/uC-LIB/lib_math.c:212-226 | the k low bits alone repeat after n calls if and only if 2^k divides n |
| `Rand.LargeSeedNeverReturns` | UCOSIII/uC-LIB/lib_math.c:172-180 | a seed above RAND_LCG_PARAM_M is never generated again |
| `Timestamp.Timestamps.constructor` | UCOSIII/uC-CPU/cpu_core.c:2101-2137 | both accumulators start at 0 with the same first timer reading |
| `Timestamp.Timestamps.Get32` | UCOSIII/uC-CPU/cpu_core.c:443-467 | the state is that after one read of the 32-bit timestamp; what is returned is the low 32 bits of the time when the timer has at least 32, and otherwise, after any run of calls, a timestamp that is exact for the reads so far and this one |
| `Timestamp.Timestamps.Get64` | UCOSIII/uC-CPU/cpu_core.c:524-548 | the same for the 64-bit timestamp |
| `Timestamp.Timestamps.Update` | UCOSIII/uC-CPU/cpu_core.c:578-589 | each timestamp that is widened is read once |
| `Timestamp.Interleaved` | UCOSIII/uC-CPU/cpu_core.c:443-589 | however Get32, Get64 and Update are interleaved, each timestamp depends on its own reads only |
| `Timestamp.Accounted` | UCOSIII/uC-CPU/cpu_core.c:448-458 | what has been accumulated plus the timer width times the periods lost is the time elapsed |
| `Timestamp.RunExact` | UCOSIII/uC-CPU/cpu_core.c:443-548 | after every run the timestamp agrees with the elapsed time modulo the timer width; it equals it in its own width if and only if the lost periods add up to a multiple of that width; none is lost when reads are less than a timer period apart |
| `Timestamp.GetExact` | UCOSIII/uC-CPU/cpu_core.c:443-548 | the timestamp a get returns: the low octets of the timer count when the timer is wide enough; otherwise, after any run, it agrees with the time of this very read modulo the timer width, and equals it under the same exact condition |
| `IntDis.Measurement.constructor` | UCOSIII/uC-CPU/cpu_core.c:2180-2210 | the calibration leaves the first state of a run and the overhead calculated from the sum of the section lengths, with its wrapping |
| `IntDis.Measurement.TimeOnce` | UCOSIII/uC-CPU/cpu_core.c:2199-2201 | one start-stop pair at depth 0 leaves the current maximum at its modular length |
| `IntDis.Measurement.Start` | UCOSIII/uC-CPU/cpu_core.c:822-829 | the timer is read only for the outermost start |
| `IntDis.Measurement.Stop` | UCOSIII/uC-CPU/cpu_core.c:1006-1025 | only the outermost stop is timed and can raise the maxima |
| `IntDis.Measurement.ClearMaxCur` | UCOSIII/uC-CPU/cpu_core.c:709-711 | the second window of the reset |
| `IntDis.Measurement.MaxCurGet` | UCOSIII/uC-CPU/cpu_core.c:743-758 | what is reported, plus the overhead, is the larger of the current maximum and the overhead |
| `IntDis.Measurement.MaxGet` | UCOSIII/uC-CPU/cpu_core.c:785-800 | the same for the maximum since initialization |
| `IntDis.OverheadNearest` | UCOSIII/uC-CPU/cpu_core.c:2196-2206 | for every number of measurements the loop can count: with fewer measurements than the timer has counts, the overhead is the average rounded to the nearest integer if and only if neither the sum nor the sum for rounding wraps; with more (an 8-bit timer), if and only if the wrapped and the true sum round alike |
| `IntDis.Tracking` | UCOSIII/uC-CPU/cpu_core.c:822-829 | the nesting counter is the depth of the trace, and the start time that of the section still open |
| `IntDis.MaximaExact` | UCOSIII/uC-CPU/cpu_core.c:1006-1025 | over every run from the initialization, with any nesting of starts, stops and resets, Max is the longest completed outermost section since initialization, MaxCur the longest that ended since it was last cleared, and MaxCur never exceeds Max |
| `IntDis.ResetReports` | UCOSIII/uC-CPU/cpu_core.c:702-714 | a reset reports the longest section that ended since the last clear and before its first window, and leaves the longest that ends after its second; together they are the longest since the last clear if and only if no section that ended between the windows was longer than both |
| `IntDis.ResetMissesSection` | UCOSIII/uC-CPU/cpu_core.c:702-714 | a concrete section between the windows that only Max has seen |
| `IntDis.LengthTrue` | UCOSIII/uC-CPU/cpu_core.c:1012-1015 | a modular length is the true one if and only if the section is shorter than one timer period |
| `IntDis.ReportedOrder` | UCOSIII/uC-CPU/cpu_core.c:2313-2326 | what is reported plus the overhead is the larger of what is measured and the overhead, and the reported current maximum never exceeds the reported maximum |
| `BitCount.TblExact` | UCOSIII/uC-CPU/cpu_core.c:95-113 | the 256-entry table holds the leading zeros of every octet |
| `BitCount.LeadZeros64Exact` | UCOSIII/uC-CPU/cpu_core.c:1417-1489 | 2^(63-clz) <= v < 2^(64-clz) for every 64-bit v but 0, and 64 for 0 |
| `BitCount.LeadZeros32Exact` | UCOSIII/uC-CPU/cpu_core.c:1330-1374 | the same for 32 bits |
| `BitCount.LeadZeros16Exact` | UCOSIII/uC-CPU/cpu_core.c:1257-1287 | the same for 16 bits |
| `BitCount.NarrowAgrees` | UCOSIII/uC-CPU/cpu_core.c:1190-1489 | the 8-, 16- and 32-bit trees agree with the 64-bit tree less the difference in width |
| `BitCount.LowestBitExact` | UCOSIII/uC-CPU/cpu_core.c:2028 | v & (~v + 1) is the power of two of the lowest set bit |
| `BitCount.TrailZeros64Exact` | UCOSIII/uC-CPU/cpu_core.c:2008-2036 | 2^ctz divides v and 2^(ctz+1) does not, for every 64-bit v but 0, and 64 for 0 |
| `BitCount.NarrowTrailsExact` | UCOSIII/uC-CPU/cpu_core.c:1696-1932 | the same for 8, 16 and 32 bits |

## Left out

- MemLib.MemLib.MemPoolCreate: the descriptor must not be in use already and the dedicated pair must not be the heap's own (see `Refusals.HeapPairPool` for that pair); the size of the pointer array must not defeat the product test (see `Refusals.PtrArrayWraps`); without argument checks the caller guarantees what they would check of the arguments, and that one block with the gap in front of it fits in 32 bits (see `Segments.GrantTooSmall`); the block total is free.
- MemLib.MemLib.MemPoolBlkFree: without argument checks only used blocks may be freed (or the pool is full); what happens otherwise is `Pools.UncheckedFreeKeepsPool`.
- MemLib.MemLib.MemHeapAlloc: without argument checks the caller gives a positive size and alignment, and the size with the gap in front of it fits in 32 bits (see `Segments.GrantTooSmall`).
- Allocator.RunWellFormed: runs are those of calls that meet these conditions.
- MemLib.MemLib.MemPoolClr: clearing a descriptor that is in the table, and creating a pool twice, which the code forbids.
- Buffers.MemSet: Mem_Clr, which is Mem_Set with 0, has no member of its own.
- Endian.CopyIntu: source and destination must not overlap, as the macros ask; the fixed-size copy macros, the 8-bit and the 16-bit order conversions, and the host-order aliases are left out as easier cases of the same.
- IntDis.MaximaExact: nesting deeper than 65535, where the 16-bit counter wraps.
- IntDis.OverheadNearest: more calibration measurements than the 16-bit loop counter counts.
- Refusals.SegReqdIsLeast: the octets reported by the size checks; those reported after a late refusal (`Answers.BlksRefusedAnswer`) are not a size that helps, as nothing can be added at the top of the address space and a wrapped total never fits.
- The pointer array of a pool is a Dafny array beside its address in the heap; that it occupies heap octets is kept as a region in `Allocator`, not as octets of one memory.
- Errors that mean Mem_Init was never called (an empty table, a missing heap) cannot arise in a model that starts from Mem_Init.
- A null error pointer, which raises a software exception, and a null pointer for the octets required, which is replaced by a local.
- Mem_HeapGetSizeRem, which is Mem_SegGetSizeRem on the heap.
- Assembly variants of Mem_Copy and of the count-zeros functions.
- Interleaving inside critical sections, and interrupts as such.
- The timer itself, its frequency and the conversions to microseconds; the CPU name functions.
- The null pointer checks of the pool functions are modelled, but a pointer that is neither null, nor a created pool, nor of another type is outside every contract.
- Register definitions, CMSIS intrinsics, start-up code, `lib_ascii` and string prototypes: constants, hardware access and single-branch tests.
