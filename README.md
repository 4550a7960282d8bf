# Segregated best-fit allocator and segment-parallel sort, modelled in Dafny

This project models two programs.

**The allocator of hw4/multilevelBF.c.** It replaces `malloc`/`free`:
- On the first non-zero request, one 20000-byte pool is mapped.
- The pool is cut into blocks. Each block is a 32-byte header followed by a payload that is a multiple of 32 bytes.
- Consecutive blocks are linked in physical order by `next_phys`.
- Free blocks are also linked by `next_free` onto one of eleven size-class lists. Class 0 holds payloads in (0, 32]; each later class doubles the bound; the last class takes everything larger than 16384.

What the operations do:
- `malloc(size)` rounds the request up to 32. It scans the classes from the request's own class upward; in each list it looks for the smallest free block that is large enough. The first class that yields one ends the search.
- The chosen block is unlinked and split when the rest can hold a header plus 32 bytes. The new free block goes to the tail of its class list.
- `malloc(0)` reports the largest free payload and unmaps the pool.
- `free` marks the block free, merges it with a free successor and then with a free predecessor, and files the result at the tail of its class list.

Module layout:
- `SizeClass`: the class scan and the rounding.
- `PoolModel`: the arena view of the pool: header offsets, headers and lists, with the pool invariant.
- `BestFit`: the search.
- `Allocation`: initialisation, take, split and carve, and the whole malloc step.
- `Release`: the steps of free.
- `Lifecycle`: malloc followed by free, and the first requests on a fresh pool.
- `Heap`: the class whose fields are the globals `heap_start`, `head` and `free_lists`. Its methods carry the source's loops, and each is proved to produce the arena function of the old state.

**The sequential core of the sorting benchmark hw3/112550139.cpp.** `main` does the following:
- It splits `n` numbers into eight balanced segments.
- It builds a fifteen-job tree: jobs 0–7 bubble-sort one segment each; jobs 8–14 merge their two children's ranges, and job 14 covers the whole array.
- Worker threads take jobs from a queue. A merge job is enqueued once both children (buddies) are done.

Module layout:
- `Segments`: the partition and the job tables as functions.
- `Runs`: the merge as a function, with its stability and permutation properties.
- `SortJobs.Benchmark`: the class holding `arr` and the tables, with `bubble`, `merge` and `mergeSort` as methods. `SortAll` runs the jobs in the order a single worker takes them from the queue.

## Model

| member | source | states |
|---|---|---|
| SizeClass.Upper | hw4/multilevelBF.c:89-95 | the scan's class bound is never below the alignment unit |
| SizeClass.UpperIncreasing | hw4/multilevelBF.c:89-95 | the class bounds grow strictly from class to class |
| SizeClass.UpperGrows | hw4/multilevelBF.c:89-95 | for i < j, bound i is below bound j |
| SizeClass.TopBoundaries | hw4/multilevelBF.c:5-8 | the last two finite bounds are 16384 and 32768, so the last class catches every payload above 16384 |
| SizeClass.LevelFromInClass | hw4/multilevelBF.c:89-95 | the scan started at class i stops at a class at or after i that holds the size |
| SizeClass.Level | hw4/multilevelBF.c:89-95 | the class index is below LEVELS |
| SizeClass.LevelInClass | hw4/multilevelBF.c:89-95 | every size, 0 included, lies in the class the scan gives it |
| SizeClass.ClassesDisjoint | hw4/multilevelBF.c:89-95 | no size lies in two classes |
| SizeClass.LevelIff | hw4/multilevelBF.c:89-95 | the scan picks class l if and only if the size lies in the range of class l |
| SizeClass.LevelMonotone | hw4/multilevelBF.c:89-95 | a larger positive size never falls in a smaller class |
| SizeClass.ComputeLevel | hw4/multilevelBF.c:154-161 | the loop with its early break computes the class the scan defines (the same loop appears at lines 49-56, 89-95, 191-198, 227-234 and 253-260) |
| SizeClass.RoundUp | hw4/multilevelBF.c:86 | the rounded request is a multiple of 32, at least the size and less than size + 32 |
| SizeClass.RoundUpLeast | hw4/multilevelBF.c:86 | no multiple of 32 that is at least the size is below the rounded request |
| PoolModel.ChainOrder | hw4/multilevelBF.c:144-151 | every block of the physical chain starts at or after the end of each earlier block |
| PoolModel.ChainDistinct | hw4/multilevelBF.c:144-151 | no two blocks of the chain share an address |
| PoolModel.ChainBelowEnd | hw4/multilevelBF.c:40-44 | every block ends inside the pool |
| PoolModel.FootprintSpan | hw4/multilevelBF.c:144-151 | the headers and payloads of a linked chain span from its first block to the end of its last |
| PoolModel.Coverage | hw4/multilevelBF.c:40-44 | in a valid pool the headers and payloads of all blocks add up to exactly the 20000-byte pool |
| PoolModel.ListedExactlyOnce | hw4/multilevelBF.c:162-168 | a block is on list l if and only if it is free and l is its class, and it appears there once |
| PoolModel.Remove | hw4/multilevelBF.c:124-137 | the unlink takes out exactly one occurrence of the block, keeps every other entry, and keeps a duplicate-free list duplicate-free |
| PoolModel.DistinctCons | hw4/multilevelBF.c:124-137 | proof helper: a new front entry not on a duplicate-free list keeps it duplicate-free |
| PoolModel.RemoveSnoc | hw4/multilevelBF.c:124-137 | unlinking an entry appended at the tail of a list without it gives back the list |
| PoolModel.RemoveMultiset | hw4/multilevelBF.c:124-137 | unlinking a listed block takes exactly one copy of it out of the list's multiset |
| PoolModel.RemoveAt | hw4/multilevelBF.c:127-136 | removing the first occurrence is cutting the list at the index where the walk stops |
| PoolModel.Unlink | hw4/multilevelBF.c:124-137 | unlinking changes only the list of the given class, and neither the chain nor any header |
| PoolModel.UnlinkFree | hw4/multilevelBF.c:124-137 | unlinking a free block from its class list leaves it on no list and keeps every list well formed |
| PoolModel.IndexOf | hw4/multilevelBF.c:216-221 | the walk from head finds the first position of the block |
| PoolModel.IndexOfLeast | hw4/multilevelBF.c:216-221 | no earlier position holds the block |
| BestFit.BestOf | hw4/multilevelBF.c:101-110 | the candidate of one list is a fitting free entry no larger than any other fitting entry; with none, no entry fits |
| BestFit.BestOfFirst | hw4/multilevelBF.c:105-107 | among fitting entries of the candidate's size, the candidate is the first in next_free order |
| BestFit.SearchFrom | hw4/multilevelBF.c:100-116 | the search stops at the first class from lvl on whose candidate exists; every class before it yields none |
| BestFit.SearchListed | hw4/multilevelBF.c:97-116 | the block the search finds comes from a list, so it is a block of the chain with a header |
| BestFit.SearchBestFit | hw4/multilevelBF.c:97-116 | in a valid pool the block found is a free, large-enough block on its own class list; no fitting block anywhere has a smaller class, and none of the same class is smaller |
| BestFit.SearchExhausted | hw4/multilevelBF.c:118-121 | when the search fails, no free block of the pool is large enough |
| Allocation.InitialPoolValid | hw4/multilevelBF.c:39-57 | the first mapping gives a valid pool with one free block of 19968 bytes, alone on the last class list |
| Allocation.Take | hw4/multilevelBF.c:123-137 | taking the block keeps the chain and marks only that block in use |
| Allocation.TakeValid | hw4/multilevelBF.c:123-137 | taking a listed free block keeps every list well formed and the rest of the invariant |
| Allocation.RemainderFresh | hw4/multilevelBF.c:142-144 | the new block's address, inside the split block, is not yet a block of the chain |
| Allocation.SplitShape | hw4/multilevelBF.c:142-151 | position by position: the new block sits right after the split block, which keeps req bytes; the new block is free with the rest minus a header; other headers are kept |
| Allocation.SplitLinked | hw4/multilevelBF.c:142-151 | the split chain still tiles the pool with aligned payloads |
| Allocation.SplitAligned | hw4/multilevelBF.c:142-146 | both halves of a split keep positive multiple-of-32 payloads |
| Allocation.SplitTiles | hw4/multilevelBF.c:142-151 | the split chain still tiles the whole pool |
| Allocation.SplitEndAt | hw4/multilevelBF.c:142-151 | each block of the split chain ends where its successor starts |
| Allocation.SplitSeparated | hw4/multilevelBF.c:142-173 | splitting an in-use block whose successor is in use keeps any two neighbours from both being free |
| Allocation.SplitFiled | hw4/multilevelBF.c:153-168 | after the split the lists are well formed and every free block is on its class list |
| Allocation.SplitListed | hw4/multilevelBF.c:153-168 | after the tail append every list holds only free blocks of its class, each once |
| Allocation.SplitFiledAll | hw4/multilevelBF.c:153-168 | every free block of the split pool is on its class list |
| Allocation.ListedGrow | hw4/multilevelBF.c:162-168 | appending a new free block of class lv to a well-formed pool keeps it well formed |
| Allocation.FiledGrow | hw4/multilevelBF.c:162-168 | after that append every free block is filed |
| Allocation.SplitMembers | hw4/multilevelBF.c:144-168 | the split chain holds exactly the old blocks plus the new one, and only the new block's class list changes, gaining it at the tail |
| Allocation.DistinctSnoc | hw4/multilevelBF.c:162-168 | proof helper: appending an entry not yet on a duplicate-free list keeps it duplicate-free |
| Allocation.SplitValid | hw4/multilevelBF.c:139-171 | the split of a taken block keeps the pool invariant |
| Allocation.CarveValid | hw4/multilevelBF.c:123-174 | unlinking, splitting and marking a fitting free block keeps the pool invariant |
| Allocation.CarveSplits | hw4/multilevelBF.c:139-173 | a block with at least req + 64 bytes shrinks to req and is in use; a free block of the rest minus a header follows it and sits at the tail of its class list; no other block changes |
| Allocation.CarveKeepsOthers | hw4/multilevelBF.c:139-173 | carving changes no other block's header |
| Allocation.CarveWhole | hw4/multilevelBF.c:139-173 | a smaller block is handed over whole, only unlinked and marked in use |
| Allocation.CarveHandsOver | hw4/multilevelBF.c:170-174 | the carved block is in the chain, in use, and holds at least the rounded request |
| Allocation.AllocateValid | hw4/multilevelBF.c:82-175 | malloc keeps tiling, alignment, separation and list filing |
| Allocation.AllocateBestFit | hw4/multilevelBF.c:97-174 | a successful malloc returns the payload address of a best-fit block, which is then in use with at least the rounded request |
| Allocation.AllocateFound | hw4/multilevelBF.c:111-174 | a successful search makes malloc carve that block and return its address plus the header |
| Allocation.AllocateExhausted | hw4/multilevelBF.c:118-121 | malloc returns NULL if and only if no free block can hold the rounded request, and then the pool is unchanged |
| Release.MarkFree | hw4/multilevelBF.c:183-184 | marking free keeps the chain, the lists and the set of headers |
| Release.Absorb | hw4/multilevelBF.c:210-213 | a physical merge drops exactly the absorbed successor from the chain and keeps every other position |
| Release.MergeRight | hw4/multilevelBF.c:186-213 | the right merge keeps the chain up to and including the freed block |
| Release.MergeLeft | hw4/multilevelBF.c:215-250 | the left merge yields a headed pool and a block to file that has a header |
| Release.File | hw4/multilevelBF.c:252-269 | filing changes only the lists |
| Release.Free | hw4/multilevelBF.c:179-269 | free keeps the set of headers and the eleven lists |
| Release.MarkFreeStep | hw4/multilevelBF.c:183-184 | marking an in-use block free leaves it as the one free block on no list, with separation broken only next to it |
| Release.MarkFreeTiles | hw4/multilevelBF.c:183-184 | marking free keeps the tiling and alignment |
| Release.MarkFreeListed | hw4/multilevelBF.c:183-184 | marking an in-use block free keeps the lists well formed, puts the block on no list, and leaves every other free block filed |
| Release.MarkFreeSeparated | hw4/multilevelBF.c:183-184 | separation then holds everywhere except next to the freed block |
| Release.AbsorbHeaders | hw4/multilevelBF.c:210-213 | the merged header grows by the successor's header and payload, so the merged block ends where the successor ended; every other header is kept |
| Release.AbsorbTiles | hw4/multilevelBF.c:210-213 | a physical merge keeps the tiling |
| Release.AbsorbLinked | hw4/multilevelBF.c:210-213 | a physical merge keeps successors adjacent |
| Release.AbsorbEndAt | hw4/multilevelBF.c:210-213 | each block of the merged chain ends where its successor starts |
| Release.AbsorbAligned | hw4/multilevelBF.c:210-213 | the merged size stays a positive multiple of 32 |
| Release.AbsorbMembers | hw4/multilevelBF.c:210-213 | the merged chain holds every old block except the absorbed one |
| Release.AbsorbListed | hw4/multilevelBF.c:199-213 | merging a block that is on no list into one that is on no list keeps the lists well formed |
| Release.AbsorbFiled | hw4/multilevelBF.c:199-213 | every other free block stays filed |
| Release.AbsorbPending | hw4/multilevelBF.c:199-213 | the merged block is the one unfiled free block |
| Release.MergeRightStep | hw4/multilevelBF.c:186-213 | after the right merge the freed block is still the one unfiled free block, and its successor is in use |
| Release.AbsorbSeparated | hw4/multilevelBF.c:210-213 | absorbing a free successor keeps separation away from the freed block, leaves the merged block's new successor in use, and leaves its predecessor as it was |
| Release.MergeLeftPending | hw4/multilevelBF.c:215-250 | after the left merge the block to file is the one unfiled free block |
| Release.MergeLeftSeparated | hw4/multilevelBF.c:215-250 | after both merges no two neighbours are both free |
| Release.FileValid | hw4/multilevelBF.c:252-269 | filing the one unfiled free block at the tail of its class restores the pool invariant |
| Release.FreeValid | hw4/multilevelBF.c:179-269 | free of an in-use block keeps tiling, alignment, separation and list filing |
| Release.MergeRightShape | hw4/multilevelBF.c:186-213 | the right merge, header by header and list by list |
| Release.MergeLeftShape | hw4/multilevelBF.c:215-250 | the left merge, header by header and list by list; the block to file is the predecessor when it was free |
| Release.Coalesce | hw4/multilevelBF.c:186-269 | the merges and the filing keep the set of headers and the lists |
| Release.BetweenMerges | hw4/multilevelBF.c:186-221 | the state the left walk sees, in terms of the state before the right merge |
| Release.MergeLo | hw4/multilevelBF.c:223-249 | the surviving block is at or before the freed one |
| Release.MergeHi | hw4/multilevelBF.c:187-212 | the merged blocks end after the freed one, inside the chain |
| Release.CoalesceChain | hw4/multilevelBF.c:186-250 | both merges leave the chain with exactly the absorbed blocks removed |
| Release.RightMergedChain | hw4/multilevelBF.c:186-213 | the chain after the right merge |
| Release.LeftMergedChain | hw4/multilevelBF.c:215-250 | the chain after the left merge |
| Release.MergeRightStructure | hw4/multilevelBF.c:186-213 | the right merge keeps the chain linked and the blocks before the freed one in place |
| Release.CoalesceBlock | hw4/multilevelBF.c:186-269 | the surviving block holds the merged size, sits at the tail of its new class list, and no other header changes |
| Release.MergedBlock | hw4/multilevelBF.c:186-250 | after both merges the surviving block holds the merged payloads plus one header per absorbed block |
| Release.RightMergedHeaders | hw4/multilevelBF.c:186-221 | the headers the left merge reads after the right merge |
| Release.LeftMergedHeader | hw4/multilevelBF.c:223-250 | the header of the block left for filing |
| Release.MergedOthers | hw4/multilevelBF.c:186-250 | the merges change no header but the freed and the surviving block's |
| Release.MarkFreeMerge | hw4/multilevelBF.c:183-187 | marking the block free changes neither which neighbours merge nor the merged size |
| Release.FreeShape | hw4/multilevelBF.c:179-269 | free removes exactly the absorbed neighbours from the chain; the surviving block (the predecessor when free, else the freed block) is free, holds the merged payloads plus one header per absorbed block, and ends its new class list; no other block changes |
| Release.SeparatedAt | hw4/multilevelBF.c:186-250 | proof helper: two neighbours of a separated chain are not both free |
| Release.ListedAt | hw4/multilevelBF.c:162-168 | proof helper: each list entry is a block of the chain of that list's class, not repeated later |
| Release.AllFreeIsInitial | hw4/multilevelBF.c:179-269 | a valid pool whose blocks are all free is the single block of 19968 bytes, alone on its list, as after initialisation |
| Release.OnlyInitialListed | hw4/multilevelBF.c:46-57 | a valid pool holding only the whole free block has the lists of the fresh pool |
| Release.MovedToTail | hw4/multilevelBF.c:252-269 | moving a listed block to the tail of its list keeps that list's multiset and every other list |
| Lifecycle.NeighboursInUse | hw4/multilevelBF.c:186-250 | in a valid pool both physical neighbours of a free block are in use |
| Lifecycle.FileBack | hw4/multilevelBF.c:215-269 | with both neighbours in use, the left walk leaves the freed block to be filed, and filing puts it back at the tail of its old list |
| Lifecycle.FreeTaken | hw4/multilevelBF.c:179-269 | freeing a block that malloc took whole gives back the pool before malloc, with that block moved to the tail of its list |
| Lifecycle.SplitMarked | hw4/multilevelBF.c:179-184 | freeing a split block marks it free at the position it had before the split |
| Lifecycle.Overwritten | hw4/multilevelBF.c:183-184 | proof helper: a second update of a header replaces the first |
| Lifecycle.Swapped | hw4/multilevelBF.c:183-213 | proof helper: updates of two different headers commute |
| Lifecycle.SplitFreedChain | hw4/multilevelBF.c:186-213 | after the split block is marked free, the fresh remainder follows it, and dropping the remainder gives back the old chain |
| Lifecycle.RemainderOffLists | hw4/multilevelBF.c:142-168 | the remainder's address is on no list before malloc appends it |
| Lifecycle.RemainderUnlinked | hw4/multilevelBF.c:190-208 | taking the remainder off its list undoes the tail append of malloc |
| Lifecycle.SnocUnlinked | hw4/multilevelBF.c:124-208 | proof helper: appending a fresh entry to a list and removing it again restores the lists |
| Lifecycle.MergeRemainder | hw4/multilevelBF.c:186-213 | the right merge of the freed split block absorbs the remainder and gives back the old chain, the old header of every block on it, and the lists after the unlink |
| Lifecycle.SplitFreedRemainder | hw4/multilevelBF.c:186-213 | both halves of the freed split block are free, and absorbing the remainder gives back the block's old header |
| Lifecycle.AbsorbedFree | hw4/multilevelBF.c:186-213 | the right merge with a free successor: the successor leaves the chain and its list, and its header and payload join the block |
| Lifecycle.Restored | hw4/multilevelBF.c:210-213 | proof helper: rewriting a header to its old value undoes its earlier update |
| Lifecycle.FreeSplit | hw4/multilevelBF.c:179-269 | freeing a block malloc split gives back the old chain, the old header of every block on it, and the old lists with that block at the tail of its list |
| Lifecycle.FreeCarved | hw4/multilevelBF.c:179-269 | freeing a block malloc carved, whole or split, gives back the chain, the headers on it, and the lists up to that block moving to the tail of its list |
| Lifecycle.CarveFreeValid | hw4/multilevelBF.c:123-269 | carving a fitting free block and freeing it again keeps the pool valid on both steps and returns it as FreeCarved says |
| Lifecycle.AllocatedBlock | hw4/multilevelBF.c:97-174 | a successful malloc returns a pointer right after the header of a free block of the chain that holds the rounded request, and leaves that block carved |
| Lifecycle.RoundTrip | hw4/multilevelBF.c:82-269 | free of the pointer a successful malloc returned, on the pool malloc left, gives a valid pool with the old chain and the old header of every block; each list holds the same blocks as before, the block back at the tail of its list |
| Lifecycle.Roundings | hw4/multilevelBF.c:86 | 100 rounds to 128, and 19808 is already a multiple of 32 |
| Lifecycle.SoleBlockCarves | hw4/multilevelBF.c:97-174 | on a pool that is one free block, a request that fits is carved from offset 0, and the pointer is the header size |
| Lifecycle.WholeBlockCarve | hw4/multilevelBF.c:139-173 | carving 128 bytes from the fresh 19968-byte block leaves it at offset 0 in use, followed by a free block of 19968 - 128 - 32 = 19808 bytes at offset 160 |
| Lifecycle.FirstRequest | hw4/multilevelBF.c:82-174 | malloc(100) on the fresh pool returns offset 32 and leaves a valid pool of a 128-byte block in use and a free 19808-byte block |
| Lifecycle.SecondRequest | hw4/multilevelBF.c:97-174 | on that pool malloc(19808) returns the free block whole, since the fit test at line 104 accepts a block of exactly the request |
| Lifecycle.FirstTwoRequests | hw4/multilevelBF.c:23-174 | on the freshly mapped pool, malloc(100) returns the address after the first header and malloc(19808) then succeeds with the block at offset 160 |
| Heap.MaxFree | hw4/multilevelBF.c:64-69 | the reported value is at least every free payload and is 0 or one of them |
| Heap.IndexOfUnique | hw4/multilevelBF.c:216-221 | a position with no earlier occurrence is the one the walk finds |
| Heap.Heap.constructor | hw4/multilevelBF.c:17-19 | the static state is valid and unmapped |
| Heap.Heap.ClearLists | hw4/multilevelBF.c:77 | every free list becomes empty |
| Heap.Heap.Init | hw4/multilevelBF.c:29-58 | the fresh mapping is the initial pool and is valid |
| Heap.Heap.LargestFree | hw4/multilevelBF.c:64-69 | the walk along next_phys computes the largest free payload |
| Heap.Heap.ScanList | hw4/multilevelBF.c:101-110 | the list scan computes the best candidate of that list |
| Heap.Heap.FindBest | hw4/multilevelBF.c:97-116 | the loop over the classes computes the search |
| Heap.Heap.UnlinkBlock | hw4/multilevelBF.c:124-137 | the walk with prev removes the first occurrence of the block from that list |
| Heap.Heap.AppendTail | hw4/multilevelBF.c:162-168 | the block is appended at the tail of the list |
| Heap.Heap.Predecessor | hw4/multilevelBF.c:216-221 | the walk from head yields the physical predecessor, or none for the first block |
| Heap.Heap.Reset | hw4/multilevelBF.c:60-80 | malloc(0) reports the largest free payload of the old state and leaves a valid, unmapped, empty heap |
| Heap.Heap.SplitBlock | hw4/multilevelBF.c:142-171 | the split computes the arena split |
| Heap.Heap.Malloc | hw4/multilevelBF.c:23-175 | malloc keeps the heap valid. malloc(0) returns NULL; on a mapped heap it reports the largest free payload and unmaps. malloc(0) and a failed first mapping on an unmapped heap return NULL and leave the state unchanged. Otherwise the state and the result are the arena allocation of the old (or freshly initialised) pool |
| Heap.Heap.Serve | hw4/multilevelBF.c:82-174 | the allocation part of malloc computes the arena allocation and keeps the heap valid |
| Heap.Heap.CarveBlock | hw4/multilevelBF.c:123-173 | unlink, split and mark compute the arena carve |
| Heap.Heap.Free | hw4/multilevelBF.c:179-269 | free of NULL or on an unmapped heap changes nothing; otherwise the state is the arena free, and the heap stays valid |
| Heap.Heap.RightMerge | hw4/multilevelBF.c:186-213 | the right merge computes the arena right merge |
| Heap.Heap.LeftMerge | hw4/multilevelBF.c:215-250 | the left walk and merge compute the arena left merge and the block to file |
| Segments.SegStartClosed | hw3/112550139.cpp:136-145 | segment i starts at i·(n/8) + min(i, n%8) |
| Segments.SegStartBounds | hw3/112550139.cpp:136-145 | the segments start at 0, end at n, and their starts never decrease |
| Segments.MulMonotone | hw3/112550139.cpp:142-145 | proof helper: scaling keeps order (used for the starts) |
| Segments.SegLenBalanced | hw3/112550139.cpp:136-140 | later segments are never longer, lengths differ by at most one, and for every segment k of the eight, k is one longer than n/8 exactly when k < n%8 |
| Segments.JobRanges | hw3/112550139.cpp:147-174 | every job's first segment is at most its last; bubble job i owns segment i; job 14 owns all eight |
| Segments.BuddyParent | hw3/112550139.cpp:98-105 | every non-root job and its buddy are distinct non-root jobs with the same parent, and the parent is a later merge job |
| Segments.ChildrenSplit | hw3/112550139.cpp:65-74 | the two halves mergeSort merges are exactly the ranges of the job's two children, and they are its only children |
| Segments.JobBounds | hw3/112550139.cpp:65-74 | every job's index range lies inside arr; the root's is all of arr |
| Segments.SegmentsDisjoint | hw3/112550139.cpp:147-175 | a finished job whose parent is still to come owns segments wholly to one side of the current job's |
| Segments.JobsDisjoint | hw3/112550139.cpp:147-175 | so their index ranges do not overlap |
| Runs.TakeLeft | hw3/112550139.cpp:47-56 | pushing the left head keeps the merge invariant whenever merge takes it |
| Runs.TakeRight | hw3/112550139.cpp:47-59 | pushing the right head keeps the merge invariant whenever merge takes it |
| Runs.MergeFromLength | hw3/112550139.cpp:41-59 | merge outputs exactly as many elements as are left in the two runs |
| Runs.MergeSource | hw3/112550139.cpp:41-59 | there is one source position per output element |
| Runs.MergeFromPermutes | hw3/112550139.cpp:41-59 | merge outputs every remaining element exactly as often as it occurs in the runs |
| Runs.ConsPermutes | hw3/112550139.cpp:49-51 | proof helper: pushing one element onto both sides keeps the multiset relation |
| Runs.MergeSourceAt | hw3/112550139.cpp:47-59 | each output element is the run element its source names, at or after the read positions |
| Runs.MergeFromOrdered | hw3/112550139.cpp:47-59 | merging sorted runs orders every pair of output positions |
| Runs.MergeFromSorted | hw3/112550139.cpp:41-59 | merging two sorted runs gives a sorted sequence |
| Runs.MergeFromStableAt | hw3/112550139.cpp:47-53 | for each output pair: elements of one run keep their order, and a right-run element comes before a left-run element only when strictly smaller |
| Runs.MergeRunsStable | hw3/112550139.cpp:41-59 | merge is stable: every output element comes from a run position, each run's order is kept, and ties go to the left run |
| Runs.MergeRunsCorrect | hw3/112550139.cpp:41-63 | the merge of two sorted runs is a sorted permutation of their concatenation |
| SortJobs.Benchmark.constructor | hw3/112550139.cpp:128-175 | arr holds the input, and the partition and job tables hold the values the functions define |
| SortJobs.Benchmark.Swap | hw3/112550139.cpp:33-35 | the two elements are exchanged and the multiset is kept |
| SortJobs.Benchmark.Bubble | hw3/112550139.cpp:27-39 | the segment ends up sorted with the same elements, and the rest of arr is untouched |
| SortJobs.Benchmark.ExchangeSort | hw3/112550139.cpp:30-38 | the range ends up sorted with the same elements, and the rest is untouched |
| SortJobs.Benchmark.SettleMin | hw3/112550139.cpp:31-37 | position i ends up holding the least element of the rest of the range, with the multiset kept |
| SortJobs.Benchmark.Merge | hw3/112550139.cpp:41-63 | the range becomes the merge of its two runs, the rest is untouched, the multiset is kept, and sorted runs give a sorted range |
| SortJobs.Benchmark.MergeInto | hw3/112550139.cpp:42-59 | temp receives exactly the merge of the two runs |
| SortJobs.Benchmark.MergeHeads | hw3/112550139.cpp:47-53 | the first loop stops when one run is used up, with the merge invariant established |
| SortJobs.Benchmark.MergeTails | hw3/112550139.cpp:54-59 | the last two loops complete the merge |
| SortJobs.Benchmark.CopyBack | hw3/112550139.cpp:60-62 | the range becomes temp and the rest of arr is untouched |
| SortJobs.Benchmark.MergeSort | hw3/112550139.cpp:65-74 | the job's range becomes the merge of its halves, split at the mid segment; sorted halves give a sorted range |
| SortJobs.Benchmark.SortAll | hw3/112550139.cpp:92-107 | running the fifteen jobs in one worker's queue order leaves arr sorted and a permutation of its start |
| SortJobs.Benchmark.BubbleStep | hw3/112550139.cpp:92-93 | bubble job s sorts its own range and keeps the earlier bubble ranges sorted |
| SortJobs.Benchmark.MergeStepJob | hw3/112550139.cpp:94-107 | merge job j, run once both children are done, sorts its range and keeps every finished range still awaiting merging sorted |
| SortJobs.FillSegLen | hw3/112550139.cpp:136-140 | segLen[i] is n/8 plus one for the first n%8 segments |
| SortJobs.FillSegStart | hw3/112550139.cpp:142-145 | segStartIdx holds the running sums of the lengths |
| SortJobs.FillParents | hw3/112550139.cpp:152-175 | parentJob holds the tree as written |
| SortJobs.FillFirstSegs | hw3/112550139.cpp:147-174 | firstSegIdx holds each job's first segment as written |
| SortJobs.FillLastSegs | hw3/112550139.cpp:147-174 | lastSegIdx holds each job's last segment as written |
| SortJobs.BubbleKeeps | hw3/112550139.cpp:27-39 | a bubble job that changes nothing before its segment keeps earlier bubble ranges sorted |
| SortJobs.BubbleBefore | hw3/112550139.cpp:147-150 | each earlier bubble job's range lies before a later bubble segment |
| SortJobs.MergeKeeps | hw3/112550139.cpp:98-107 | a merge job that changes only its own range keeps sorted every finished range still awaiting its parent |
| SortJobs.SliceMultiset | hw3/112550139.cpp:27-39 | proof helper: equal outside a range and as wholes means equal as multisets inside it |
| SortJobs.OutsideMultiset | hw3/112550139.cpp:60-62 | proof helper: equal outside a range and as multisets inside means equal as wholes |
| SortJobs.SliceInside | hw3/112550139.cpp:27-39 | proof helper: slices before an unchanged prefix are unchanged |
| SortJobs.SliceAfter | hw3/112550139.cpp:60-62 | proof helper: slices after an unchanged suffix are unchanged |

## Left out

- mmap (multilevelBF.c:30-37) is an outside call. Its outcome is the parameter `mapOk` of `Malloc`. munmap (line 74) is modelled only by dropping the heap state, because the mapping itself is not modelled.
- printf (line 72) is output. The reported maximum is returned as the `report` result of `Malloc`.
- The bytes of the pool are not modelled. A block is its header offset from the start of the mapping, and the pointer malloc returns is that offset plus the header size. `head` is always the block at offset 0: it is the first element of `chain`.
- The `next_phys` and `next_free` links are represented by the sequences `chain` and `freeLists[l]`. The tail walks (lines 165-167 and 266-268) become a sequence append. Line 131 clears the unlinked block's own `next_free`; the sequence view has no such field.
- Heap.Heap.Free: freeing a pointer that malloc did not return, or freeing one twice, is undefined in the source. Here it is a precondition: the pointer lies right after the header of an in-use block of the chain.
- Heap.Heap.Malloc: requests above SIZE_MAX - 31, where `size + 31` wraps around in size_t, are excluded by a precondition rather than modelled with the wrap.
- In hw3/112550139.cpp, the threads are left out: workerFunc's semaphores, mutex and queue, `jobDone`, `tasksComplete`, and the loop over thread counts (lines 76-120, 177-208). Concurrency is out of scope. `SortAll` models the job order of a single worker (bubble jobs 0-7, then merge jobs 8-14 as their buddies complete). With more workers, the same job ranges are merged only after both children finish, which `MergeStepJob` relies on.
- The timing with gettimeofday, the file input and output, and the driver scripts check.py and generator.py are I/O, outside the modelled logic.
- The C++ `int` width of the elements and indices is not modelled: elements are unbounded integers, and `n` is a natural number.
- The job tables are modelled as constants equal to what `main` writes, line by line. The first and last segment tables are filled by two separate methods.
