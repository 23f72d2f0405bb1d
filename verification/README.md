# Verification of the C and C++ components

This project models ten groups of components of the repository in Dafny and proves what they are for. Code
that works in place is modelled in place: classes whose methods update fields, loops over arrays, and a
specification function or a state invariant that each method is proved against.

* **Memory pool** (`Options`, `DistinctLists`, `FreeChain`, `PoolStore`, `PoolSteps`, `PoolGrowth`,
  `PoolLeaks`, `PoolDirectory`, `PoolCounts`, `PoolRefinement`, `MemPool`). The memory is a map from addresses to block
  headers, with the link and the magic number sharing a place; descriptors of chunks are themselves blocks of the
  descriptor pool. One invariant over the whole state covers the lists, the free chains, the totals, the
  placement in memory, and the descriptors; four steps keep it, and every operation is made of these steps.
  `PoolLeaks` says that whatever malloc has given out is in use.
  `PoolCounts` is the same pool with nothing but its counters, which `PoolRefinement` shows the steps to refine.
* **String rotation** (`NumberTheory`, `RotateString`), **string search** (`StringSearch`), **sorting**
  (`Sorting`, `ShellSort`, `HeapSort`), and **odd occurrences** (`OddOccurrences`, on 32-bit vectors).
* **Message framing and output** (`Frames`, `BufferInput`, `BufferOutput`, `WriteInterest`). The sockets are
  objects that may give or take any number of bytes, block, fail, or close, and that record what they have taken.
* **Write-behind bitmap cache** (`Bitmaps`, `DArray`, `CacheTable`). The file is an oracle with short reads and
  writes.
* **Bucket extension** (`ExtentTask`). Events and runs of a state machine, a history of the requests told by the
  events alone, and the task object that refines the machine.
* **Timers** (`TimerHeap`, `DueTimers`, `TimerRuns`, `ManyMissed`, `TimerManager`, `TimerLives`), with the kernel's
  timer as an object, and **directory traversal** (`DirTraverse`, `TraverseOrder`).

Where the code does not do what it is for, it is modelled as it is. There is then a lemma with an input for which
it fails, and one that says exactly when it does not:

* The memory pool's assertion that the first chunk of a pool with free blocks has one
  (`memorypool/terryMemPool_V4.c:306`) is not an invariant: `PoolCounts.RunFails`, `AllocFailsIff`,
  `FreeKeepsOrderIff`. Sizes below 16 and 1 MB itself fail another assertion.
* The skip search misses occurrences for some patterns with negative characters, and for some in which a character
  occurs a multiple of 256 times: `StringSearch.SkipSearchCorrectIff` says for which patterns,
  `SignedCharacterIsMissed` and `WrappedCounterIsMissed` give inputs.
* Heap sort reads the element behind the array and can exchange it with one of its own: `HeapSort.Sort`,
  `OutsideReadIff`, `OutsideTakenIff`, `LateTopReaches`, `OrderIsLost`.
* The timer heap's sift-down leaves out the last element, and deleting never sifts up: `TimerHeaps.ShortSiftIff`,
  `DeletionKeepsHeapIff`, `DeletionNeedsRise`. So from a heap an expiration can leave a due timer, but no more than
  one: `DueTimers.OnlyLastIsLeft`, `MissesIff`, `DueTimerIsMissed`. Deletions and expirations can lose the heap
  order, and then any number of due timers can be left: `TimerRuns.TwoAreMissed`, `ManyMissed.ManyAreMissed`.
  `TimerRuns.RunsIff` says for which runs the order is never lost, and `RepairedRuns` that with both bounds repaired
  it is lost in none. A failure to set the kernel's timer leaves a timer in the heap that the map does not know.
* Putting off the first timer leaves the kernel's timer too early, and when it goes off the assertion of expire_all stops
  the program: `TimerManagers.StaysInTimeIff`, `FirstPutOff`. So does deleting the only timer, after which the kernel's
  timer stays armed, and a wake-up in the very microsecond that was set: `TimerManagers.TimerManager.DeleteTimer`,
  `TimerLives.EventLoop`.
* A failed read of the cache's file is not noticed and can clear bits, and a failed write loses indices that have left
  their buffer: `CacheTables.FlushKeepsKnownIff`, `FailedReadLosesBit`, `FailedWriteLosesIndex`.
* A failure as the last answer of the extension's first round is not announced:
  `ExtentTasks.LastAnswerAnnouncesIff`, `StuckForever`. The task can delete itself too early, or never:
  `DeletesItselfIff`, `DeletedWhileWaiting`, `LastRetryDeletesIff`, `ForgottenForever`, `GivenUpIsForgotten`.
* Output queued before a connection is established is stranded: `WriteInterest.TcpAgent.SetState`,
  `SendBeforeConnected`.
* The index variable of the juggling rotation can exceed 32 bits: `RotateString.Rotate`, `IndexOverflows`.
* An appended name is not cut off again from an empty path: `DirTraverse.ClearUndoesAppendIff`.

Where code and documentation disagree, the model follows the code: the header of the timer manager says that
count -1 repeats for ever (`timer/Timer_manager.h:51`), but -1 gives one round and 0 repeats for ever
(`timer/Timer.cpp:16-24`); and the cache reports FAILED for an append that needed no flush
(`cacheTable/cacheTable.cpp:95-98`).

## Model

| member | source | states |
|---|---|---|
| `MemPools.MemPool.AllocBlock` | memorypool/terryMemPool_V4.c:254-288 | A size gives a block exactly from 16 up to, not including, 1 MB, unless the pool it goes to is blocked; larger sizes give NULL, and all others abort. The block was in use by no client, all other clients' blocks stay in use, its pool's blocks are larger than the size asked for, every invariant of the whole state is kept, the pool's counters change as `PoolCounts.Alloc` says, no other data pool is touched, and every region that malloc has given out stays |
| `MemPools.MemPool.FreeBlock` | memorypool/terryMemPool_V4.c:337-377 | Frees exactly the blocks whose header carries a chunk's address and the magic number, and turns away the rest without any change. One block ends its life and no other; the chunk goes back exactly when that was its last block in use and 128 free ones are left elsewhere, which then remain; the counters change as `PoolCounts.Freed` says, nothing else is touched, and the invariants are kept, also through the nested release of the chunk's descriptor. Of the regions given out by malloc, none goes back when the chunk stays, and else exactly the chunk's memory and what goes with its descriptor: the descriptor itself, or the chunk that it was the last block in use of |
| `MemPools.MemPool.GetBlockFromPool` | memorypool/terryMemPool_V4.c:290-335 | For data pools and the descriptor pool alike: fails exactly when the pool is stuck, or must expand and the descriptor pool is stuck; else one more block is live, which was not before. Memory is taken from malloc only when the pool has no free block, and none is lost. The recursion with expandMemPool ends after two levels |
| `MemPools.MemPool.ExpandMemPool` | memorypool/terryMemPool_V4.c:445-469 | A new first chunk of 128 free blocks, described by a block of the descriptor pool; no block in use changes in any pool but the descriptor pool |
| `MemPools.MemPool.ExpandBlockManageCache` | memorypool/terryMemPool_V4.c:471-490 | The descriptor pool grows by 128 blocks, with a descriptor straight from malloc |
| `MemPools.MemPool.AddChunk` | memorypool/terryMemPool_V4.c:205-227 | The common part of the three ways to make a chunk: spare descriptor plus fresh memory become the pool's first chunk, all of whose blocks are free |
| `MemPools.MemPool.FreeBlockManage` | memorypool/terryMemPool_V4.c:379-443 | A chunk without blocks in use leaves the list, its memory is given out no more, nor what goes with its descriptor, and everything else still is; its descriptor goes back to the pool it came from, and no block in use is affected. Nothing that malloc has given out stays without a use |
| `MemPools.MemPool.NewPool` | memorypool/terryMemPool_V4.c:120-227 | A size without a pool gets one with a single chunk of 512 free blocks; it fails exactly when the descriptor pool is stuck |
| `MemPools.MemPool.EnterPool` | memorypool/terryMemPool_V4.c:148-176 | The new pool is entered in list and hash table, and all invariants hold with it still empty |
| `MemPools.MemPool.Unlink` | memorypool/terryMemPool_V4.c:389-406 | The list search takes out just the chunk it is given; it always finds it when it is called |
| `MemPools.MemPool.constructor` | memorypool/terryMemPool_V4.c:80-118 | An empty pool meets all invariants and no block is in use |
| `MemPools.NotBlocked` | memorypool/terryMemPool_V4.c:296-306 | A pool whose first chunk has a free block is not blocked |
| `PoolCounts.AllocFailsIff` | memorypool/terryMemPool_V4.c:298-306 | The assertion before taking a block fails exactly when the pool has free blocks but its first chunk has none |
| `PoolCounts.AllocKeepsFreeFirst` | memorypool/terryMemPool_V4.c:290-329 | While chunks with free blocks precede the exhausted ones, every allocation succeeds and keeps that order |
| `PoolCounts.FreeKeepsOrderIff` | memorypool/terryMemPool_V4.c:365-376 | A release keeps that order exactly when its chunk has free blocks, is the first exhausted one, or is given back |
| `PoolCounts.NeverFailsIff` | memorypool/terryMemPool_V4.c:290-329 | Allocations can be repeated for ever without a failed assertion exactly when no exhausted chunk precedes one with free blocks |
| `PoolCounts.RunFails` | memorypool/terryMemPool_V4.c:305-326 | A run from a new pool, 768 allocations and one release, after which the next allocation fails the assertion although a block is free |
| `PoolCounts.ChooseChunk` | memorypool/terryMemPool_V2.c:292-298 | The earlier version's choice, cached chunk or else a scan, always ends at a chunk with a free block |
| `PoolRefinement.StuckMeansAllocFails` | memorypool/terryMemPool_V4.c:298-306 | The full state is stuck exactly when the counters say that an allocation fails; the pool's total equals the sum of the chunks' free counts |
| `PoolRefinement.TakeCounts` | memorypool/terryMemPool_V4.c:305-329 | Taking a block in the full state refines the step on the counters, with the rotation exactly when the first chunk is used up |
| `PoolRefinement.PutCounts` | memorypool/terryMemPool_V4.c:365-374 | Putting a block back changes the counters of its own chunk only |
| `PoolRefinement.DropCounts` | memorypool/terryMemPool_V4.c:379-413 | Dropping a chunk removes its counters from the list and leaves the others in order |
| `PoolRefinement.GrowCounts` | memorypool/terryMemPool_V4.c:460-468 | A new chunk stands first with all its blocks free |
| `PoolStores.InUseIsLive` | memorypool/terryMemPool_V4.c:328-332 | Conservation: in every state a pool's total is the number of its blocks in use |
| `PoolStores.ChunksAreDescribed` | memorypool/terryMemPool_V4.c:205-227 | Between calls the chunks of the data pools are exactly, and as many as, the blocks in use of the descriptor pool |
| `PoolStores.LiveBlocksApart` | memorypool/terryMemPool_V4.c:179-203 | Two blocks in use, of whatever pools, never share a byte, header included |
| `PoolStores.BlocksDiffer` | memorypool/terryMemPool_V4.c:179-203 | No address is a block of two chunks |
| `PoolStores.SomeFree` | memorypool/terryMemPool_V2.c:292-298 | A positive total means that some chunk of the list has a free block |
| `PoolGrowth.TakeKeepsInv` | memorypool/terryMemPool_V4.c:305-332 | Taking a block keeps all invariants: lists, chains, totals, placement, and descriptors |
| `PoolGrowth.PutKeepsInv` | memorypool/terryMemPool_V4.c:365-374 | Putting a block back keeps all invariants |
| `PoolGrowth.DropKeepsInv` | memorypool/terryMemPool_V4.c:379-443 | Dropping a chunk keeps all invariants; the descriptor of a data chunk becomes a spare block |
| `PoolGrowth.GrowKeepsInv` | memorypool/terryMemPool_V4.c:445-490 | A new chunk keeps all invariants and uses up the spare descriptor |
| `PoolGrowth.GrabKeepsInv` | memorypool/terryMemPool_V4.c:148-150 | What malloc gives out is none of the pool's chunks, descriptors or pools, not even a block that serves as a descriptor |
| `PoolGrowth.AddPoolKeepsInv` | memorypool/terryMemPool_V4.c:148-152 | A pool without chunks keeps all invariants |
| `PoolLeaks.DropTight` | memorypool/terryMemPool_V4.c:379-443 | No leak: when everything that malloc has given out is the memory of a chunk, a pool, or the descriptor of a chunk of the descriptor pool, that is still so after a chunk has been dropped |
| `PoolLeaks.GrowTight` | memorypool/terryMemPool_V4.c:445-490 | A new chunk takes up the memory and the descriptor that had been grabbed for it |
| `PoolLeaks.GrabTight` | memorypool/terryMemPool_V4.c:148-150 | What has just been grabbed is the only region without a use |
| `MemPools.DescriptorReturned` | memorypool/terryMemPool_V4.c:409-413 | With the descriptor of a released chunk, exactly the memory of its own chunk goes back, if that one is released, too |
| `PoolGrowth.GrowLive` | memorypool/terryMemPool_V4.c:445-469 | A new chunk brings no live block and ends the life of none |
| `PoolSteps.TakeLive` | memorypool/terryMemPool_V4.c:308-332 | Exactly the first free block becomes live, in the pool it is taken from, and it was live in none |
| `PoolSteps.PutLive` | memorypool/terryMemPool_V4.c:365-368 | Exactly the block put back stops being live |
| `PoolSteps.DropLive` | memorypool/terryMemPool_V4.c:375-376 | A chunk that is given back holds no live block |
| `PoolSteps.TakeDescribed` | memorypool/terryMemPool_V4.c:457-458 | A block taken from the descriptor pool was no chunk's descriptor and is accounted as spare |
| `FreeChains.InitBlocks` | memorypool/terryMemPool_V4.c:179-203 | Writes the headers of all blocks of the new chunk as one chain in address order, and no other memory |
| `FreeChains.TakeKeepsSound` | memorypool/terryMemPool_V4.c:309-312 | Taking the first free block leaves an acyclic chain, ending with 0, as long as the counter says |
| `FreeChains.PutKeepsSound` | memorypool/terryMemPool_V4.c:365-374 | Putting a block in use back in front keeps the chain acyclic and the counter right |
| `FreeChains.InUseCounted` | memorypool/terryMemPool_V4.c:179-184 | The two counters of a chunk are the numbers of its blocks in use and of its free blocks |
| `FreeChains.NoneInUse` | memorypool/terryMemPool_V4.c:375-376 | With a zero counter every block of the chunk is free |
| `FreeChains.BlocksApart` | memorypool/terryMemPool_V4.c:179-203 | The blocks of a chunk lie one behind the other inside the memory allocated for them |
| `FreeChains.WalkIsLinked` | memorypool/terryMemPool_V4.c:309-310 | Following the links from the head gives the chain |
| `PoolDirectory.Directory.FindPool` | memorypool/terryMemPool_V4.c:234-285 | Cache or hash table find the pool of a size, or there is none in the list |
| `PoolDirectory.Directory.Lookup` | memorypool/terryMemPool_V4.c:234-247 | The chain of the size holds a pool of that size exactly when the list does |
| `PoolDirectory.Directory.CreateManageStruct` | memorypool/terryMemPool_V4.c:120-177 | A new size keeps the list strictly ascending, the count right, and one hash entry per pool; a size that is there already would get a second entry, and the agreement would be broken |
| `PoolDirectory.Directory.LinkIn` | memorypool/terryMemPool_V4.c:154-166 | Linking a pool in at the place found keeps the order and adds just that pool |
| `PoolDirectory.Directory.FindNode` | memorypool/terryMemPool_V4.c:129-138 | The node found is the last one that is not larger; all behind it are larger |
| `PoolDirectory.AlignedIsLarger` | memorypool/terryMemPool_V4.h:52-52 | The aligned size is a multiple of 16, larger than the size by at most 16, and within the limits exactly for sizes from 16 to 1 MB - 1 |
| `PoolDirectory.TwiceInChain` | memorypool/terryMemPool_V4.c:140-146 | A second entry for a pool breaks the agreement of list and hash table |
| `RotateString.Rotate` | jobSomething/rotate_string.c:76-93 | For every length and distance above 0, the string ends rotated: position i holds what was at (i + mid) mod len; and the largest value of the index variable is gcd - 1 + (len / gcd - 1) * mid, which the 32-bit variable of the original must be able to hold |
| `RotateString.IndexOverflows` | jobSomething/rotate_string.c:84-91 | For 65536 characters and distance 65535 it is not |
| `RotateString.SmallProductFits` | jobSomething/rotate_string.c:84-91 | It is when the product of length and distance is at most 2^31 |
| `RotateString.OrbitsPartition` | jobSomething/rotate_string.c:78-92 | The gcd(len, mid) orbits of length len / gcd that the loops walk visit every position exactly once |
| `RotateString.MoveOrbit` | jobSomething/rotate_string.c:84-91 | One outer iteration moves its orbit by one place and nothing else |
| `RotateString.GcdLoop` | jobSomething/rotate_string.c:64-74 | The loop computes the greatest common divisor |
| `NumberTheory.GcdIsGreatest` | jobSomething/rotate_string.c:64-74 | Every common divisor is at most the result |
| `NumberTheory.GcdDivides` | jobSomething/rotate_string.c:64-74 | The result divides both numbers |
| `RotateString.RotateBySwaps` | jobSomething/rotate_string.c:55-60 | The version with three swaps rotates too, so both versions agree for mid up to len |
| `RotateString.Swap` | jobSomething/rotate_string.c:43-53 | Reverses the given stretch and keeps the rest |
| `RotateString.ThreeReversals` | jobSomething/rotate_string.c:55-60 | Reversing both parts and then the whole is the rotation |
| `RotateString.RotatedBack` | jobSomething/rotate_string.c:76-93 | Rotating on by the rest of the length restores the string |
| `RotateString.RotatedComposes` | jobSomething/rotate_string.c:76-93 | Rotations compose by adding their distances |
| `RotateString.RotatedAt` | jobSomething/rotate_string.c:89-89 | The rotation in terms of the program's own index expression |
| `StringSearch.KmpSearchString` | jobSomething/Search.c:107-142 | Returns the first occurrence, or none exactly when there is none, after at most twice as many iterations as the text has characters, and at least as many as it has had to look at |
| `StringSearch.CreateStringTable` | jobSomething/Search.c:54-69 | Entry i is the length of the longest proper border of the first i + 1 characters |
| `StringSearch.FirstIsUnique` | jobSomething/Search.c:107-142 | The first occurrence is determined by text and pattern |
| `StringSearch.OccurrenceGivesBorder` | jobSomething/Search.c:125-130 | An occurrence that starts inside the matched part is a border of it, so the fall-back skips none |
| `StringSearch.BmSearchString` | jobSomething/Search.c:174-234 | The loops compute the skip search, including the byte-sized counters and the signed comparison |
| `StringSearch.SkipSearchCorrectIff` | jobSomething/Search.c:200-231 | The skip search finds the first occurrence in every text exactly when no jump of the pattern passes a place where the pattern still fits what the window has shown |
| `StringSearch.UnsafeJumpMisses` | jobSomething/Search.c:212-230 | For every pattern with an unsafe jump, a text in which the search returns nothing although the pattern occurs |
| `StringSearch.ShortAsciiIsSafe` | jobSomething/Search.c:183-230 | Patterns of at most 255 seven-bit characters are safe, whatever the text |
| `StringSearch.SkipAgreesWithKmp` | jobSomething/Search.c:107-234 | For every safe pattern both searches return the same, whatever the text |
| `StringSearch.ShortAsciiAgrees` | jobSomething/Search.c:107-234 | For seven-bit patterns of at most 255 characters both searches return the same |
| `StringSearch.WrappedCounterIsMissed` | jobSomething/Search.c:180-218 | A pattern of 256 equal characters, or a multiple of that, and another one at its end is missed right behind one more of these characters |
| `StringSearch.SignedCharacterIsMissed` | jobSomething/Search.c:212-224 | A pattern with a negative character is missed in a text that contains it |
| `StringSearch.JumpKeepsOccurrences` | jobSomething/Search.c:213-230 | A safe jump passes no occurrence |
| `QuickSort.Sort` | dymanicArray/sort.cpp:274-282 | For every strict weak order the array ends ordered and a permutation of what it was |
| `QuickSort.DoQuickSort` | dymanicArray/sort.cpp:234-272 | The range ends ordered, permuted within itself, and nothing outside changes |
| `QuickSort.Partition` | dymanicArray/sort.cpp:239-264 | The key ends at keyIndex; nothing left of it has to stand behind it and nothing right of it before it |
| `ShellSort.Sort` | dymanicArray/sort.cpp:112-141 | The array ends an ordered permutation, and it is sorted for every one of the gaps n / 2, n / 4, ..., 1 |
| `ShellSort.Pass` | dymanicArray/sort.cpp:121-139 | One pass sorts every column for the gap, permutes inside columns only, and loses no gap sorted before |
| `ShellSort.PassKeepsGapSorted` | dymanicArray/sort.cpp:112-141 | Sorting the columns for one gap keeps a sequence sorted for any other |
| `ShellSort.SmallAboveLarge` | dymanicArray/sort.cpp:124-138 | The counting argument for a single pair of positions |
| `ShellSort.InsertInColumn` | dymanicArray/sort.cpp:128-136 | The inner loop places one element into the sorted part of its column |
| `ShellSort.GapOneIsOrdered` | dymanicArray/sort.cpp:119-139 | Sorted for gap 1 means ordered |
| `HeapSort.Sort` | dymanicArray/sort.cpp:216-232 | The elements are the same ones exactly when none of them has been exchanged with the memory behind the array, and then they end ordered; otherwise the order can be lost, too. That memory is read only for even lengths from 4 on |
| `HeapSort.BuildHeap` | dymanicArray/sort.cpp:143-170 | The loop with its nested sift-down makes a heap of any array, permuting it, unless it takes the element behind it into the array, which then holds one that has to stand before; `outside` and `taken` say exactly when it reads and takes that element |
| `HeapSort.AdjustHeap` | dymanicArray/sort.cpp:172-198 | Permutes any array, and restores a heap whose top alone may be out of place |
| `HeapSort.TopIsLast` | dymanicArray/sort.cpp:226-231 | The top of a heap has to stand before no other element |
| `HeapSort.SiftInBuild` | dymanicArray/sort.cpp:151-166 | The nested sift-down does what its recursive description does, to the element behind the array too; if it does not take that, it ends with a permutation, and with a heap if it has started with one but for its start |
| `HeapSort.OutsideOnlyIfEven` | dymanicArray/sort.cpp:146-158 | No array of odd length, and none of two elements, makes the loop read array[n] |
| `HeapSort.LateTopReaches` | dymanicArray/sort.cpp:146-158 | For every even length from 4 on, an array for which the loop reads behind the array, and takes what is there if that has to stand after the rest: all elements equal but a later one at the last position with a child |
| `HeapSort.OutsideReadIff` | dymanicArray/sort.cpp:146-158 | Some array of n elements is read outside exactly for even n from 4 on |
| `HeapSort.OutsideTakenIff` | dymanicArray/sort.cpp:146-161 | Some array of n elements loses one to the memory behind it exactly for even n from 4 on |
| `HeapSort.OrderIsLost` | dymanicArray/sort.cpp:216-232 | For 1, 2, 1, 2 with a 3 behind them the sort takes the 3 and ends with 1, 2, 3, 2, which has lost a 1 and is not in order |
| `HeapSort.Harmless` | dymanicArray/sort.cpp:146-161 | Memory behind the array that has to stand after none of its elements does no harm |
| `HeapSort.BuildTurn` | dymanicArray/sort.cpp:153-166 | A turn of the sift-down moves the exception down or ends with a heap, also when what is behind the array has been compared with and stays there |
| `SortOrder.StrictWeakOrderAxioms` | dymanicArray/sort.cpp:112-282 | The orders that the sorts accept are exactly the strict weak orders in the usual sense |
| `OddOccurrences.Find3DiffNumber` | jobSomething/find_diff_number.c:83-116 | The array stays a permutation; when exactly three values occur an odd number of times, one ends in slot 0 and the report holds the other two |
| `OddOccurrences.Find2DiffNumber` | jobSomething/find_diff_number.c:21-59 | Complains exactly when all cancels; when exactly two values occur an odd number of times, it reports those two |
| `OddOccurrences.LowestOfThree` | jobSomething/find_diff_number.c:76-82 | Of three nonzero words with XOR 0 exactly two share the index of their lowest set bit |
| `OddOccurrences.ThreeOdd` | jobSomething/find_diff_number.c:88-103 | What the three loops single out is one of the three values |
| `OddOccurrences.TwoOdd` | jobSomething/find_diff_number.c:28-55 | The lowest bit of the sum separates the two values |
| `OddOccurrences.XorOfOdd` | jobSomething/find_diff_number.c:89-103 | XOR of any function over the array is XOR over the values that occur an odd number of times |
| `OddOccurrences.FindLowest` | jobSomething/find_diff_number.c:61-74 | The loop gives the index of the lowest set bit, 0 for 0 |
| `OddOccurrences.LowestMeaning` | jobSomething/find_diff_number.c:61-74 | The bit at that index is set and all below it are clear |
| `OddOccurrences.MoveToFront` | jobSomething/find_diff_number.c:106-113 | Keeps all elements and brings the number found to the front |
| `OddOccurrences.RestHasTwoOdd` | jobSomething/find_diff_number.c:115-115 | Behind slot 0 just the other two values occur an odd number of times |
| `BufferInput.InputBuffer.Read` | common/BufferManager.cpp:189-283 | After every call, whatever the socket did, the messages delivered are the parse of all bytes consumed and the fields hold the unfinished rest; at most one message per call. The result is FAILED exactly after a failure of the socket, SUCCESSFUL after a message or when the socket would block, and else the number of bytes that are missing |
| `BufferInput.InputBuffer.ReadHead` | common/BufferManager.cpp:199-243 | The same for the header part: one read of what is missing |
| `BufferInput.InputBuffer.ReadBody` | common/BufferManager.cpp:244-281 | The same for the body part |
| `BufferInput.InputBuffer.ReadBack` | common/BufferManager.cpp:228-271 | The agent is handed the body with a zero byte behind it, or null for a message without one |
| `BufferInput.DeliveredInOrder` | common/BufferManager.cpp:189-283 | What is delivered is a prefix of the messages sent, and all of them once all bytes are consumed |
| `BufferInput.HeaderDecides` | common/BufferManager.cpp:217-263 | When header and body bytes make a complete message, and which |
| `Frames.ParseExtends` | common/BufferManager.cpp:189-283 | Parsing is independent of how the stream is cut: more bytes continue from the unfinished rest |
| `Frames.ParseEncoded` | common/TCPAgent.cpp:258-280 | Frames that send_data builds parse back to the messages, in order, with nothing left |
| `Frames.HeaderRoundTrip` | common/TCPAgent.cpp:260-270 | The five words of a header survive the memory image |
| `Frames.HeaderOnWire` | common/BaseHeader.h:35-42 | Word j of the header, in the order command, length, error and two parameters, begins at byte 4 j, and byte k of a word has the weight 256^k |
| `Frames.HeaderBack` | common/BaseHeader.h:35-42 | Any 20 bytes are the image of the header read from them |
| `Frames.RestIncomplete` | common/BufferManager.cpp:216-281 | The rest never holds a complete message |
| `BufferOutput.OutputBuffer.Write` | common/BufferManager.cpp:98-180 | What the socket has accepted followed by what is pending stays the concatenation of all buffers queued; the result is the number of bytes that the socket has accepted in this call, and FAILED exactly when it reported an error, after which nothing has been taken off. Finished buffers are released and reported once and in order; only the head can be partial, and it is exactly when mLastIov is set |
| `BufferOutput.OutputBuffer.SkipSent` | common/BufferManager.cpp:125-178 | The loop takes just the accepted bytes off the queue, whatever buffers they end in |
| `BufferOutput.OutputBuffer.HandleWriteError` | common/BufferManager.cpp:285-307 | Every task waiting is told of the failure once, in order |
| `BufferOutput.OutputBuffer.Gather` | common/BufferManager.cpp:98-112 | The buffers offered to writev are the pending bytes, in order |
| `BufferOutput.ReleasedAreSent` | common/BufferManager.cpp:130-166 | Buffers are given back, and their tasks told, only when the socket has accepted all of their bytes |
| `BufferOutput.OutputBuffer.WriteDynamic` | common/BufferManager.cpp:79-85 | Appends one whole buffer and keeps that invariant |
| `BufferOutput.OutputBuffer.FinishHead` | common/BufferManager.cpp:130-166 | The head accepted whole is released and reported next, and the rest stays |
| `BufferOutput.OutputBuffer.AdvanceHead` | common/BufferManager.cpp:167-177 | The head accepted in part keeps its unsent bytes and becomes the partial one |
| `WriteInterest.EndToEnd` | common/BufferManager.cpp:79-283 | From one agent to the other: when the peer has read a prefix of what the agent's socket has accepted, its deliveries are a prefix of the messages queued, and all of them once nothing is pending and everything is read |
| `WriteInterest.FramesFlatten` | common/TCPAgent.cpp:258-280 | The buffers of one agent, joined, are the encoding of its messages |
| `WriteInterest.TcpAgent.WriteData` | common/TCPAgent.cpp:156-174 | On a live agent a write event leaves it live: the event is armed exactly while output is pending, and the lock is 0 then, else 1. An unsolicited call breaks that exactly when the lock was not 0. It fails exactly when the socket reports an error |
| `WriteInterest.TcpAgent.WriteDynData` | common/TCPAgent.cpp:176-191 | Queued output arms the event, so no wakeup is lost |
| `WriteInterest.TcpAgent.SendData` | common/TCPAgent.cpp:258-280 | One call queues the frame of one message, with the length of its data in the header |
| `WriteInterest.TcpAgent.SetState` | common/TCPAgent.cpp:219-229 | When the connection is established, the agent is live exactly if nothing was queued before |
| `WriteInterest.SendBeforeConnected` | common/TCPAgent.cpp:219-280 | A message sent before the connection is established stays queued on a connected agent that waits for no write event |
| `WriteInterest.TcpAgent.Accepted` | common/TCPAgent.cpp:29-50 | An accepted agent starts live, waiting for input and disarmed for output: its state is set before it has a descriptor |
| `WriteInterest.TcpAgent.Connecting` | common/TCPAgent.cpp:116-145 | A connecting agent starts armed for both |
| `WriteInterest.EpollEvent.OpenWevent` | common/EpollEvent.cpp:79-102 | Arms exactly when the lock reaches 0; does not touch the lock of an armed event |
| `WriteInterest.EpollEvent.CloseWevent` | common/EpollEvent.cpp:59-77 | Counts the lock up and disarms on the first closing |
| `WriteInterest.EpollEvent.RegisterREvent` | common/EpollEvent.cpp:104-124 | Leaves the event disarmed for writing |
| `WriteInterest.EpollEvent.RegisterWEvent` | common/EpollEvent.cpp:126-145 | Leaves the event armed for writing only |
| `WriteInterest.EpollEvent.RegisterRWEvents` | common/EpollEvent.cpp:147-167 | Leaves the event armed for both |
| `WriteInterest.CloseTwiceOpenOnce` | common/EpollEvent.cpp:59-102 | Two closings and one opening leave an event disarmed |
| `WriteInterest.Dispatcher.SendRequest` | Rubbish_cycler/MonitorServer/src/Dispatcher.cpp:102-111 | A request queued opens the write event, and requests keep their order |
| `WriteInterest.Dispatcher.SendData` | Rubbish_cycler/MonitorServer/src/Dispatcher.cpp:148-187 | What the pipe has taken followed by the requests waiting stay all requests in order; the event stays open exactly while some wait, which is when the pipe is full or writing has failed; it fails exactly in the latter case |
| `WriteInterest.Dispatcher.constructor` | Rubbish_cycler/MonitorServer/src/Dispatcher.cpp:89-99 | Starts with the event closed and nothing queued |
| `CacheTables.CacheTable.AppendItem` | cacheTable/cacheTable.cpp:79-110 | SUCCEED is returned exactly when the call has flushed. Without a flush, and whenever no call on the file fails, the indices known, set bits of the file or buffered, grow by just the new one; with a flush they do so exactly when no block loses anything. As long as no call on the file has ever failed, the indices known are those of the file at first and all those appended since. The total stays the sum of the buffer sizes and within the limit |
| `CacheTables.CacheTable.FlushCache` | cacheTable/cacheTable.cpp:112-132 | Every buffer is empty and the total is 0; every byte of every block has been read and written exactly when no call has failed; the known indices are unchanged exactly when no block loses anything, and always when no call has failed, so the record of all indices appended stays true |
| `CacheTables.CacheTable.FlushItem` | cacheTable/cacheTable.cpp:118-124 | One block: what its flush does to every bit of the file for every outcome of read and write, which are complete exactly when no call has failed |
| `CacheTables.CacheTable.BufferItem` | cacheTable/cacheTable.cpp:81-89 | The index goes into the buffer of its block |
| `CacheTables.CacheTable.constructor` | cacheTable/cacheTable.cpp:23-63 | One empty buffer per block of the partition; the indices known are the set bits of the file |
| `CacheTables.KnownWhenEmpty` | cacheTable/cacheTable.cpp:112-132 | With empty buffers the known indices are the set bits of the file |
| `CacheTables.FlushKeepsKnownIff` | cacheTable/cacheTable.cpp:112-132 | A flush of all blocks keeps the known indices exactly when every block's set bits that were overwritten unread are among its buffered indices, and every buffered index that was not written was set before |
| `CacheTables.FlushExactIff` | cacheTable/tableItem.cpp:48-72 | The flush of one block adds just its indices to the file exactly under that condition for the block |
| `CacheTables.FlushFlushes` | cacheTable/tableItem.cpp:48-72 | What a flush makes of every bit of the file, from the buffered indices, for any number of bytes read and written |
| `CacheTables.WholeIsUnspoilt` | cacheTable/tableItem.cpp:85-100 | When all bytes are read and written nothing is lost |
| `CacheTables.TableItem.FlushCache` | cacheTable/tableItem.cpp:48-72 | The buffer is empty; what the file holds for every outcome of read and write, which are complete when no call fails and not when one does; just the buffered indices are added exactly when nothing is lost; the result SUCCEED says nothing about it. When no call fails, the bit of weight 2^(7 - n % 8) in byte n / 8 of the file is set for every buffered index n |
| `CacheTables.TableItem.DealWithBitmap` | cacheTable/tableItem.cpp:85-100 | Of the file's block, the part written is the OR of the marks with what was read of it; both parts are the whole block when no call fails, and one is not when one does |
| `CacheTables.FlushBits` | cacheTable/tableItem.cpp:85-100 | Every bit of the file after a flush, for any number of bytes that the read delivered and the write put |
| `CacheTables.FailedReadKeepsBitsIff` | cacheTable/tableItem.cpp:91-96 | No bit of the file is lost exactly when every set bit that was overwritten without having been read is among the marks |
| `CacheTables.FailedReadLosesBit` | cacheTable/tableItem.cpp:91-96 | An index that is not known any more after a flush whose read has failed |
| `CacheTables.FailedWriteLosesIndex` | cacheTable/tableItem.cpp:63-96 | A buffered index that is not known any more after a flush whose write has failed: the buffer is cleared before |
| `CacheTables.ReadFromFile` | cacheTable/tableItem.cpp:102-139 | Whatever short reads happen, the buffer ends with a prefix of the block; it is the whole block, and the result true, exactly when no call on the file fails |
| `CacheTables.WriteToFile` | cacheTable/tableItem.cpp:141-176 | Whatever short writes happen, a prefix of the buffer is in the file at its place; it is the whole buffer, and the result true, exactly when no call on the file fails |
| `CacheTables.TableItem.AppendItem` | cacheTable/tableItem.cpp:38-41 | Appends to the buffer |
| `CacheTables.TableItem.MarkLoop` | cacheTable/tableItem.cpp:50-61 | The marks are the bits of the buffered indices |
| `Bitmaps.AndBitmap` | cacheTable/tableItem.cpp:178-195 | The OR by whole words with its backward tail is the OR of all bytes |
| `Bitmaps.AndBitToBitmap` | cacheTable/tableItem.cpp:74-83 | Byte n / 8 grows by 2^(7 - n % 8) if that bit of it was clear, and nothing else changes |
| `Bitmaps.HasMasked` | cacheTable/tableItem.cpp:80-82 | The mask 1 << (7 - k) picks out the bit of weight 2^(7 - k), and ORed in it adds that weight to a byte that does not have the bit |
| `Bitmaps.WithBitAdds` | cacheTable/tableItem.cpp:74-83 | Setting a bit adds just that bit |
| `Bitmaps.OrBytesAdds` | cacheTable/tableItem.cpp:178-195 | A bit is set in the OR exactly when it is in one of the two |
| `Bitmaps.PartOfOr` | cacheTable/tableItem.cpp:186-189 | OR of words is OR of their bytes |
| `DArrays.DArray.Insert` | dymanicArray/dArray.cpp:53-81 | Inserts before the index, or appends for an index past the end, growing exactly when at most 4 places are left |
| `DArrays.InsertedAt` | dymanicArray/dArray.cpp:53-81 | What an insertion leaves in front, puts at the place, and moves up |
| `DArrays.DArray.Append` | dymanicArray/dArray.cpp:88-91 | Appends |
| `DArrays.DArray.Expand` | dymanicArray/dArray.cpp:187-217 | Keeps the contents and makes room for one more: half as much again, or 16 places |
| `DArrays.DArray.ClearAndResize` | dymanicArray/dArray.cpp:158-169 | Empties the array |
| `ExtentTasks.RunInv` | Rubbish_cycler/MonitorServer/src/Extent_task.cpp:121-483 | Over every run while the task lives: both lists stay duplicate-free and disjoint, all members are mapped to a node, and final work is launched at most once |
| `ExtentTasks.StepInv` | Rubbish_cycler/MonitorServer/src/Extent_task.cpp:332-477 | One event keeps all of that |
| `ExtentTasks.StartedInv` | Rubbish_cycler/MonitorServer/src/Extent_task.cpp:95-119 | Starting the task keeps it |
| `ExtentTasks.MigrationGate` | Rubbish_cycler/MonitorServer/src/Extent_task.cpp:61-93 | In every reachable state migration is allowed exactly when the first round is over and neither node has an outstanding request |
| `ExtentTasks.SuccessMeansAllAnswered` | Rubbish_cycler/MonitorServer/src/Extent_task.cpp:403-417 | A success is announced only after every request of the first round has been answered |
| `ExtentTasks.LastAnswerAnnouncesIff` | Rubbish_cycler/MonitorServer/src/Extent_task.cpp:403-445 | The answer that empties the first round announces success exactly when it is no failure; a failure leaves the task stuck |
| `ExtentTasks.StuckForever` | Rubbish_cycler/MonitorServer/src/Extent_task.cpp:435-477 | A stuck task never announces anything, and migration stays refused |
| `ExtentTasks.NobodyAskedIsStuck` | Rubbish_cycler/MonitorServer/src/Extent_task.cpp:149-161 | When the rule has been modified the task is stuck at once exactly when no node could be asked |
| `ExtentTasks.RunFromStart` | Rubbish_cycler/MonitorServer/src/Extent_task.cpp:61-119 | All this holds of every run of a new task: the invariants, at most one final work item, and success only when every agent created for the modified rule has sent an answer |
| `ExtentTasks.RunAgrees` | Rubbish_cycler/MonitorServer/src/Extent_task.cpp:240-483 | In every reachable state the task knows for each agent without a failure the node that the events tell, a retry being for the node of the agent it replaces, and its two lists hold just the agents whose answer is still to come |
| `ExtentTasks.GateOfRun` | Rubbish_cycler/MonitorServer/src/Extent_task.cpp:61-93 | The gate in terms of the events: migration is allowed exactly when the first round is over and no answer of either node is due |
| `ExtentTasks.RetriedNodeIsGuarded` | Rubbish_cycler/MonitorServer/src/Extent_task.cpp:435-477 | A node whose failed request is retried takes no part in a migration until the retry is answered, whatever happens meanwhile |
| `ExtentTasks.AnnouncesIff` | Rubbish_cycler/MonitorServer/src/Extent_task.cpp:121-445 | A failure is announced exactly when the rule could not be modified, and a success exactly when the last answer of the first round is no failure |
| `ExtentTasks.DeletesItselfIff` | Rubbish_cycler/MonitorServer/src/Extent_task.cpp:419-429 | The task deletes itself exactly when the last retried request succeeds, however many of the first round are waiting |
| `ExtentTasks.DeletedWhileWaiting` | Rubbish_cycler/MonitorServer/src/Extent_task.cpp:419-429 | A run of two nodes in which the task is gone while the second has not answered |
| `ExtentTasks.LastRetryDeletesIff` | Rubbish_cycler/MonitorServer/src/Extent_task.cpp:419-483 | The answer that ends the retrying deletes the task exactly when it is no failure; a failure that cannot be retried leaves a forgotten task |
| `ExtentTasks.ForgottenForever` | Rubbish_cycler/MonitorServer/src/Extent_task.cpp:379-483 | No answer of an agent whose request is outstanding ever deletes a forgotten task |
| `ExtentTasks.GivenUpIsForgotten` | Rubbish_cycler/MonitorServer/src/Extent_task.cpp:435-483 | A run of two nodes that ends with a forgotten task |
| `ExtentTasks.ExtentTask.DoneModifyRule` | Rubbish_cycler/MonitorServer/src/Extent_task.cpp:121-162 | The handler is the step for the rule's answer |
| `ExtentTasks.ExtentTask.DoneExtentAck` | Rubbish_cycler/MonitorServer/src/Extent_task.cpp:246-321 | The handler is the step for a node's answer |
| `ExtentTasks.ExtentTask.AgentExecExtentBack` | Rubbish_cycler/MonitorServer/src/Extent_task.cpp:379-430 | Success or closed connection: the step that takes the agent off its list |
| `ExtentTasks.ExtentTask.RetryDoExtent` | Rubbish_cycler/MonitorServer/src/Extent_task.cpp:435-483 | Failure: the step that replaces the agent by a new one for the same node on the retry list, or gives the node up |
| `ExtentTasks.ExtentTask.CanMigrate` | Rubbish_cycler/MonitorServer/src/Extent_task.cpp:61-93 | The loop with its early returns decides the gate |
| `ExtentTasks.ExtentTask.Remove` | Rubbish_cycler/MonitorServer/src/Extent_task.cpp:332-376 | Erases the first occurrence and says whether there was one |
| `ExtentTasks.ExtentTask.Init` | Rubbish_cycler/MonitorServer/src/Extent_task.cpp:95-98 | Starts the first round |
| `TimerManagers.TimerManager.ExpireAll` | timer/Timer_manager.cpp:338-387 | Aborts exactly when the root is not due; else each timer given out was due and fires once, those with rounds to go are in the heap again at the clock's reading plus their interval, the others are gone and have fired exactly as often as they were to, and nothing else about a timer has changed. All other timers are unchanged. Heap and map keep agreeing, and the due times change as in a run of one expiration and the additions. When every due timer before the last has a due parent, as in every heap, at most one due timer is left, the last of the array, and none exactly when that one is not due; when the last has one, too, none is left if the number of timers that are not due is neither 1 nor 2. The kernel's timer is set for the first timer then |
| `TimerManagers.TimerManager.FireOne` | timer/Timer_manager.cpp:353-362 | One timer: fired once more, and either armed again for the clock's reading plus its interval or dropped with its count used up; interval, kind, index and rounds granted stay |
| `TimerManagers.TimerManager.AddAndGetIndex` | timer/Timer_manager.cpp:102-139 | The timer's time is added to the heap; it gets the first free index above the counter and heap and map agree; the kernel's timer is set exactly when the first time got earlier, or was 0 or missing; when that fails, the timer stays in the heap alone and the agreement is broken |
| `TimerManagers.TimerManager.AddTimer` | timer/Timer_manager.cpp:182-212 | A relative timer is due its interval from now, with the interval and the count asked for; negative times are turned away |
| `TimerHeaps.FirstAfterAdding` | timer/Heap.cpp:16-34 | Adding never makes the first time later, so that a kernel's timer in time stays so |
| `TimerManagers.TimerManager.DeleteTimer` | timer/Timer_manager.cpp:224-247 | The timer leaves heap and map, and nothing else does; the order is kept exactly when the index is unknown or the deletion is safe; an unknown index changes nothing. The kernel's timer is set exactly when there is another first time now; with the last timer gone it stays armed |
| `TimerManagers.TimerManager.ChangeExpireTime` | timer/Timer_manager.cpp:290-336 | Both collections keep the same timers; the timer is deleted from the heap and put in with its new time; for a relative one with the new interval and count, while for an absolute one interval, kind and rounds stay; the order is kept when the deletion is safe; it fails exactly for bad arguments or when the first time got earlier than after the deletion and the kernel's timer cannot be set; bad arguments change nothing. It says exactly when the kernel's timer stays in time |
| `TimerManagers.StaysInTimeIff` | timer/Timer_manager.cpp:305-331 | From a heap, and with a safe deletion, the kernel's timer stays too early exactly when the timer changed was the first, others wait, all later, and its new time is not before theirs |
| `TimerManagers.FirstPutOff` | timer/Timer_manager.cpp:305-331 | Two timers at 10 and 20, the first put off to 30: the kernel's timer stays at 10 |
| `TimerLives.EventLoop` | timer/timer_test.cpp:115-125 | While the kernel's timer goes off and one expiration follows each time: the program is stopped exactly by a wake-up in the very microsecond that was set; a timer never fires before it is due, at most once in each expiration, the next time its interval after the clock's reading at the last one, and a limited one is dropped with its last round; interval, kind and index stay |
| `TimerLives.AddAndExpire` | timer/Timer_manager.cpp:182-387 | A timer added with a count n > 0 to any manager fires at most n times, and waits exactly while it has fired less often; 0 has no end, and a negative count is one round; each firing comes after the time it was armed for |
| `TimerLives.WakeUp` | timer/Timer_manager.cpp:338-387 | When the kernel's timer is in time, expire_all finds something due, unless it is called in the very microsecond set, and leaves the kernel's timer in time again if setting it succeeds |
| `TimerLives.LifeGoesOn` | timer/Timer_manager.cpp:350-363 | One expiration in the life of a single timer |
| `TimerManagers.TimerManager.FreeIndex` | timer/Timer_manager.cpp:126-134 | The loop ends at the first index above the counter that is free |
| `TimerManagers.TimerManager.constructor` | timer/Timer_manager.cpp:19-26 | Starts empty and in order, with the kernel's timer not armed |
| `TimerManagers.Strayed` | timer/Timer_manager.cpp:105-121 | A timer in the heap only breaks the agreement |
| `TimerManagers.TimerHeap.AddTimer` | timer/Heap.cpp:16-34 | Adds one timer, lifted to its place, keeps the heap order, and says whether the root got earlier or was 0 or absent |
| `TimerManagers.TimerHeap.GetAndRemoveExpireTimers` | timer/Heap.cpp:45-66 | Splits the timers into a list of due ones and the rest, as the loop's description does from every state. When the due timers have due parents, the rest is due at its last element at most; nothing due is left exactly when that one is not due. From a heap, the rest is a heap exactly when the last turn was clean |
| `TimerManagers.TimerManager.TakeDue` | timer/Timer_manager.cpp:338-347 | The same for the manager: the list given out and the heap share out the timers |
| `TimerManagers.TimerManager.FireAll` | timer/Timer_manager.cpp:350-363 | The timers of the list fire in order, once each, and the due times change as in a run of the additions |
| `TimerManagers.TimerHeap.DeleteTimer` | timer/Heap.cpp:68-90 | Removes the timer and no other, from the position where it was, with the sift-down from there; a heap stays one exactly when the deletion is safe |
| `TimerManagers.TimerHeap.AdjustHeap` | timer/Heap.cpp:118-141 | The loop is the sift-up of the last element |
| `TimerHeaps.SiftUpRestores` | timer/Heap.cpp:118-141 | The sift-up restores an order that only the lifted element breaks |
| `TimerHeaps.AddingKeepsHeap` | timer/Heap.cpp:16-34 | Adding keeps the order of every heap |
| `TimerManagers.TimerHeap.AdjustHeap2` | timer/Heap.cpp:92-116 | The sift-down as it is, over all but the last element |
| `TimerHeaps.ShortSiftIff` | timer/Heap.cpp:92-116 | The sift-down restores the order exactly when the sifted element does not pass the last one |
| `TimerHeaps.DeletionIff` | timer/Heap.cpp:76-84 | Deleting at a position keeps the order exactly when the element moved there need not rise and does not pass the last one |
| `TimerHeaps.DeletionKeepsHeapIff` | timer/Heap.cpp:68-90 | The whole deletion keeps a heap one exactly when it is safe |
| `TimerHeaps.DeletionDeletes` | timer/Heap.cpp:68-90 | The deletion takes out just the time at the position |
| `TimerHeaps.DeletionNeedsRise` | timer/Heap.cpp:68-90 | A heap of six whose order is broken because the element moved in had to rise |
| `TimerHeaps.RepairedDeletionKeepsHeap` | timer/Heap.cpp:68-90 | Sifting down over all elements left, and then up, every deletion would keep the order of every heap |
| `TimerHeaps.RepairedDeletionDeletes` | timer/Heap.cpp:68-90 | It would delete just the time at the position |
| `TimerHeaps.RemovalBreaksHeap` | timer/Heap.cpp:54-57 | Three timers for which taking the first breaks the order |
| `DueTimers.OnlyLastIsLeft` | timer/Heap.cpp:45-61 | When every due timer in front of the last element has a due parent, no timer left by the loop is due, except perhaps the last one |
| `DueTimers.TakingKeepsDue` | timer/Heap.cpp:48-61 | A turn keeps that condition for all timers in front of the last one |
| `DueTimers.SiftKeepsDue` | timer/Heap.cpp:92-116 | The sift-down restores it when only the sifted element breaks it |
| `DueTimers.HeapHasDueParents` | timer/Heap.cpp:48-61 | In a heap every due timer has a due parent |
| `DueTimers.MissesIffLastIsDue` | timer/Heap.cpp:45-61 | Under the same condition a due timer is left exactly when the last one left is due |
| `DueTimers.MissesOnlyIf` | timer/Heap.cpp:45-61 | When all due timers have due parents, one is lost only if exactly one or two of the timers are not due and at least two are |
| `DueTimers.MissesIff` | timer/Heap.cpp:45-61 | Some heap of n timers, w of them not due, loses a due one exactly when w is 1 or 2 and at least two are due |
| `DueTimers.MissingHeap` | timer/Heap.cpp:45-61 | For all these numbers, such a heap, found by running the loop backwards |
| `DueTimers.UntakenIsTaken` | timer/Heap.cpp:92-116 | The sift-down takes an element that was carried to the root back to its place |
| `DueTimers.OrderSurvivesIff` | timer/Heap.cpp:45-61 | From a heap, the timers left form a heap exactly when in the last turn the sifted element did not pass the last one |
| `DueTimers.HeapSurvivesIff` | timer/Heap.cpp:45-66 | From a whole heap, the timers left form a heap exactly when the last turn was clean, and then nothing due is left |
| `DueTimers.LastDecidesOrder` | timer/Heap.cpp:45-61 | The timers left form a heap exactly when the last one need not rise |
| `DueTimers.TakenIsDue` | timer/Heap.cpp:45-61 | The loop permutes the timers and takes only due ones |
| `DueTimers.DueTimerIsMissed` | timer/Heap.cpp:48-61 | For due times 1, 2 and 5 the loop stops at time 3 with the timer due at 2 left |
| `DueTimers.RepairedLoopTakesAll` | timer/Heap.cpp:45-61 | With the sift-down over all timers left, the loop would take exactly the due timers of every heap, in their order, and leave a heap with the earliest at its root |
| `TimerRuns.RunsIff` | timer/Heap.cpp:16-90 | From a heap, every state of a run of additions, deletions and expirations is a heap exactly when every deletion is safe and every expiration ends with a clean turn |
| `TimerRuns.RunsFromEmptyIff` | timer/Heap.cpp:16-90 | The same from the empty heap |
| `TimerRuns.CleanRunsMissNothing` | timer/Heap.cpp:16-90 | In such a run every expiration takes all due timers |
| `TimerRuns.TwoAreMissed` | timer/Heap.cpp:16-90 | A run with two deletions after which an expiration leaves two due timers, with three that are not due |
| `TimerRuns.HeapIsReached` | timer/Heap.cpp:16-34 | Adding the times of a heap in the order of its array builds that heap |
| `TimerRuns.RepairedRuns` | timer/Heap.cpp:16-90 | With the repaired deletion and the repaired loop every state of every run from a heap is a heap, and every expiration takes exactly the due timers |
| `ManyMissed.ManyAreMissed` | timer/Heap.cpp:16-90 | For every number there is a run of additions and deletions from the empty heap after which an expiration leaves that many due timers |
| `ManyMissed.Drained` | timer/Heap.cpp:45-61 | Due timers under a left child that is not due stay where they are while the loop runs, as long as it does not reach them from the end |
| `DueTimers.TakingKeepsFront` | timer/Heap.cpp:48-61 | A turn keeps the order of all but the last element of every such array |
| `TimerHeaps.SiftRestores` | timer/Heap.cpp:92-116 | Over all elements the sift-down would restore any order that only the sifted element breaks |
| `TimerHeaps.RootIsMinimum` | timer/Heap.cpp:36-43 | In a heap the root is the earliest |
| `TimerManagers.Timer.constructor` | timer/Timer.cpp:8-27 | Count 0 never ends, n > 0 gives n rounds, and a negative one, -1 included, a single round |
| `TimerManagers.Timer.ContinueTimer` | timer/Timer.cpp:54-73 | Counts down, and arms again exactly while rounds are left |
| `TimerManagers.Timer.SetLastTimes` | timer/Timer.cpp:80-94 | Sets the rounds that are left anew |
| `DirTraverse.SameCalls` | tcpComm/terryTcpLib.c:235-391 | On every finite tree depth-first and breadth-first traversal make the same calls with the same paths, each as often |
| `TraverseOrder.DepthFirst` | tcpComm/terryTcpLib.c:235-276 | The calls of a depth-first traversal, told by the tree alone: one for every file and no other, with the callback for its kind and the names on its way as its path, in the order of the positions; "." and ".." are left out |
| `TraverseOrder.BreadthFirst` | tcpComm/terryTcpLib.c:322-391 | The same for the breadth-first traversal, level by level, and on each level in the order of the positions |
| `TraverseOrder.NextFrontier` | tcpComm/terryTcpLib.c:342-385 | The directories waiting are always in that order, on at most two levels |
| `TraverseOrder.RoutesComplete` | tcpComm/terryTcpLib.c:249-272 | The recursion meets all files of the tree and nothing else |
| `DirTraverse.DepthTraverseDir` | tcpComm/terryTcpLib.c:235-276 | Ends, and makes just the calls of the recursive description in that order, with one path buffer edited in place |
| `DirTraverse.WidthTraverseDir` | tcpComm/terryTcpLib.c:322-391 | Ends, and makes just the calls of the queue's description in that order |
| `DirTraverse.ClearUndoesAppendIff` | tcpComm/terryTcpLib.c:278-309 | Cutting undoes appending exactly for a path that is not empty and a name without a slash |
| `DirTraverse.AppendNewPath` | tcpComm/terryTcpLib.c:278-296 | The buffer holds the path, a slash and the name |
| `DirTraverse.ClearNewPath` | tcpComm/terryTcpLib.c:298-309 | The buffer holds the path up to its last slash, but a slash at the very start stays |
| `DirTraverse.DepthSplits` | tcpComm/terryTcpLib.c:249-272 | A directory's calls are its own and those of its subdirectories |
| `DirTraverse.WidthIsBag` | tcpComm/terryTcpLib.c:342-385 | The queue's calls are those of depth-first traversals of all directories waiting |
| `DirTraverse.WeightFalls` | tcpComm/terryTcpLib.c:342-385 | What waits shrinks with every directory, although its subdirectories are added |
| `DirTraverse.PathQueue.GetListHead` | tcpComm/terryTcpLib.c:423-436 | Unlinks the first path, or gives none exactly for the empty list; the links, the last path and the number stay right |
| `DirTraverse.PathQueue.AddToCacheList` | tcpComm/terryTcpLib.c:406-421 | The path is linked in behind the last one |

## Left out

- Sockets, epoll, timerfd, pipes, threads, locks, clocks and files: objects or parameters whose outcomes are
  unspecified; malloc always succeeds and may return any memory that is not in use.
- doEvent: assumed to succeed, so the lock counter and the kernel's view of the event agree.
- MemPools.MemPool.AllocBlock: the state after a failed assertion is not described, because the program ends there.
- MemPools.MemPool.FreeBlock: a pointer into foreign memory that happens to hold an address and the magic number is
  excluded by its precondition; the original cannot tell it from a block either.
- Structure sizes (16, 80 and 88 bytes for the header, the pool and the descriptor) are those of a 64-bit machine.
- Destruction of the memory pool, its printing and its locks; the other versions of the pool, except for the choice of
  the chunk in the second one.
- PoolDirectory.AlignSize: the bit mask of the original is written as a remainder; the two agree for sizes that are not
  negative.
- HeapSort.BuildHeap: the memory behind the n elements is element n of the array; that the program may not be allowed to
  read or write it is not modelled.
- CacheTables.TableItem.DealWithBitmap: positions in the file are not bounded, where the original's offset is a 32-bit
  integer (`cacheTable/tableItem.cpp:91`).
- CacheTables.TableItem.AppendItem: indices are not bounded, where the table's are `long long`
  (`cacheTable/tableItem.h:27`) and the dynamic array's elements `int` (`dymanicArray/dArray.h:39`).
- RotateString.Rotate: what happens when the 32-bit index variable of the original overflows; the largest value it has
  to take is part of the contract.
- BufferInput.InputBuffer.Read: one class each for the receiving and the sending half of BufferManager; an agent is
  always set, and allocating a buffer for the length 2^32 - 1, whose size wraps around, is not modelled.
- ExtentTasks.ExtentTask.RetryDoExtent: the node's address is read before the map entry is erased, where the original
  reads it afterwards.
- ExtentTask messages, the database work items and the task manager: only their effect as events. A closed MPC agent at
  the final callback is not modelled.
- TimerManagers.TimerManager.ExpireAll: callbacks do not call the manager again; times are numbers of microseconds, and
  indices are not bounded. The read of the root after the last timer has been deleted (`timer/Heap.cpp:85`) is guarded.
- TimerLives.EventLoop: nobody adds, changes or deletes a timer between two expirations, as the loop of the timer test
  does (`timer/timer_test.cpp:127-136`); what those operations do is said by their own contracts.
- expire_now and expire_now_and_delete, which are the callback and a deletion.
- DirTraverse.DepthTraverseDir: opendir fails for the empty path only; paths that do not fit into the 256 bytes of the
  buffer are excluded, because the original does not check them. Each path in the queue carries what opendir will find
  there.
- Selection, bubble and insertion sort, deletion and shrinking of the dynamic array, the plain string search, and the
  first version of the skip table.
- The atom table, the double-lock queue, the database wrapper, the configuration, the portal, and the heartbeat's own
  framing.
