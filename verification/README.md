# Verified models of the Pi runtime cores

Pi is a small language runtime in C. This project models its stateful cores in Dafny and proves what they keep over
every run: the POSIX free-list heap, the chained hash table, the hybrid garbage collector, the scanner over a text
source, the bytecode chunks with the stack machine and its NaN-boxed values, the arena, and the FNV-1a hash.

The imperative cores are classes whose methods follow the C functions field by field. Each method is tied to a
specification function or to an abstract state, and the deeper theorems are lemmas about those.

| file | part |
|---|---|
| `HeapModel.dfy` | the heap as a value: blocks in address order, free list, used bytes, and the steps of alloc, free, realloc |
| `HeapSafety.dfy` | each step keeps the layout and changes the live regions as a map would |
| `HeapView.dfy` | the bytes of the live regions |
| `HeapAnswers.dfy` | what alloc, free and realloc answer, in terms of the sizes of the blocks |
| `HeapRuns.dfy` | whole runs: safety, free undoing alloc, coalescing, last-in-first-out runs |
| `HeapFragments.dfy` | how many adjacent free blocks a run leaves |
| `PosixHeap.dfy` | the linked block headers and the mapping, refining `HeapModel` |
| `HashSpec.dfy`, `HashTable.dfy` | the table as a map with its rehashing cost, and the chained structure refining it |
| `GcModel.dfy`, `Gc.dfy` | survivors, reference counts and root removal on values, and the collector |
| `GcRuns.dfy` | the collector as a state machine: what whole runs keep, and that the methods take its steps |
| `Source.dfy`, `Lexer.dfy` | the two-cursor source, and the scanner over it |
| `LexerLaws.dfy` | what the scanner answers, character by character |
| `Values.dfy`, `Bytecode.dfy`, `Svm.dfy` | boxed values, the meaning of bytecode, and the buffers and loop |
| `BytecodeLaws.dfy` | single instructions on every type, and chunks in bytes |
| `Runtime.dfy` | running a chunk under the collector, and an expression from its writers to its result |
| `Arena.dfy`, `Strings.dfy` | the arena, and the hash |
| `Bits.dfy`, `Collections.dfy` | C's bitwise operators on natural numbers, and shared notions |

Conventions. Addresses are integers; a live heap region is named by the address of its 32-byte header, so its data
starts 32 bytes later. Fixed-width arithmetic is written out (`% WORD32`, `% WORD64`). NULL is address 0 or a null
reference. `Option` stands for results that C returns through a flag or a NULL.

Some promises do not hold on every input. They are stated with the exact condition under which they hold:

- the heap maps whole pages exactly when the size wanted is neither 0 nor within a page of 2^64; 0, documented as one
  page, maps nothing (`MappingHolds`);
- alloc and realloc return at least the bytes asked for exactly when the request is at most 2^64 - 16 (`AllocHolds`,
  `ReallocHolds`); a request of 2^64 - 1 gets 32 bytes (`WrappedRequest`);
- free restores the layout before an alloc exactly when the block was split or its successor was in use
  (`FreeUndoesAlloc`, with a run that breaks it in `NotAlwaysUndone`);
- free keeps the heap coalesced exactly when the predecessor is in use (`FreeCoalesces`, `NotAlwaysCoalesced`), and a run
  that frees everything restores the fresh heap exactly when no merge was missed for good (`Leftovers`);
- `pi_NextPowerOf2` is right exactly up to 2^31 (`NextPowerOf2Least`), so a table is good exactly when the capacity asked
  for is at most 2^31 (`InitGood`), and may double exactly while it has fewer than 2^31 buckets (`GrowthFits`);
- insertions and deletions leave at most the buckets the table was made with, or at most four for each entry
  (`RunShrinks`); a clear keeps that exactly when the table has not grown (`StepTight`, with a clear that leaves 16
  buckets without an entry in `NotAlwaysTight`);
- a release leaves the roots good exactly when the object is frozen, keeps a count, or has no root that refers to it
  (`Release`); over a run no root dangles exactly when no release frees a rooted object (`IntactWhy`, with a run that
  leaves a dangling root in `NotAlwaysIntact`);
- a boxed address survives exactly below 2^50 and a boxed double exactly when it is not negative infinity and not a NaN
  other than the canonical one (`ObjectRoundTrip`, `RealRoundTrip`);
- a value is true exactly when some of its low 44 bits is set (`TruthIs`), which for null, booleans, characters and
  integers is what it should be (`TruthOfBoxed`); the double 1.0 is false (`OneIsFalse`);
- LDC loads its own constant exactly when its index is below 256 or the aliased constant is equal (`ConstantLoads`, with
  a pool that aliases in `ConstantAliases`);
- the scanner takes a word for the keyword exactly when its length, cut to 32 bits, is 2 or 3 and as many of its first
  characters are those of "var": "va", "var", and words of 2^32 and more characters (`KeywordIsPrefix`, `KeywordWraps`);
- a zero that no base letter follows leaves the answer of the scanner unset (`ZeroIsUndefined`);
- the comment counter stays an int exactly when fewer than 2^31 - 1 comments are nested in each other (`CounterFits`);
- the scanner gives square and curly brackets the codes of round ones (`BracketsAndOthers`);
- an emitted expression fails with signed overflow exactly when one of its signed operations overflows
  (`CompiledProgram`), and signed arithmetic does so exactly when the exact value of some subexpression leaves the signed
  integers (`SignedIsExact`);
- the arena grants what was asked exactly when no sum wraps (`PlaceHolds`, with two requests that wrap in `PlaceWraps`).

## Model

| member | source | states |
|---|---|---|
| `HeapModel.AlignToIsMask` | lib/runtime/env.c:83-86 | for every power of two the modelled rounding is the 64-bit mask of the code, wrap-around included |
| `HeapModel.BlockSizeCovers` | lib/runtime/env.c:83-86 | the rounded size is a multiple of 16 and at least 32, and is at least the request if and only if the request is at most 2^64 - 16 |
| `HeapAnswers.BlockSizeLeast` | lib/runtime/env.c:83-86 | for requests up to 2^64 - 16 the rounded size is the least multiple of 16 that is at least 32 and holds the request |
| `HeapModel.MappingHolds` | lib/runtime/env.c:99-113 | the size mapped is a multiple of the page size; it is at least one page and at least what is wanted, by less than a page, if and only if the size wanted is neither 0 nor within a page of 2^64, and otherwise it is 0; what is wanted is the request, or the default for 0, or the minimum if that is larger |
| `HeapModel.InitInv` | lib/runtime/env.c:135-151 | a mapping made into one free block satisfies the heap invariant |
| `HeapModel.CreateInv` | lib/runtime/env.c:112-151 | a non-empty mapping of whole pages of at least 64 bytes becomes a heap that satisfies the invariant |
| `HeapModel.TilesOrdered` | lib/runtime/env.c:39-46 | blocks that tile a region are in strictly increasing address order and inside the region |
| `HeapModel.TilesAligned` | lib/runtime/env.c:25-30 | every header of a tiling that starts 16-aligned is 16-aligned |
| `HeapModel.FirstFit` | lib/runtime/env.c:195-249 | the position found holds the size and no earlier position of the free list does |
| `HeapModel.Replaced` | lib/runtime/env.c:202-217 | replacing neighbouring blocks by blocks of the same span keeps the tiling, and every block outside the span |
| `HeapSafety.LiveRegionsDisjoint` | lib/runtime/env.c:182-253 | live regions lie inside the mapping, are 16-aligned and pairwise disjoint, headers included |
| `HeapSafety.EndsDistinct` | lib/runtime/env.c:39-46 | no two blocks end at the same address, so only one header has a given successor |
| `HeapSafety.AllocSafe` | lib/runtime/env.c:182-253 | alloc returns NULL exactly for size 0 or when no free block holds the rounded size, and then changes nothing; otherwise it adds one live region of at least the rounded size and less than 64 bytes more, and keeps the invariant |
| `HeapSafety.AllocHolds` | lib/runtime/env.c:182-253 | a region that alloc returns is at least as large as requested if and only if the request is at most 2^64 - 16 |
| `HeapSafety.AllocFirstFit` | lib/runtime/env.c:194-252 | the taken block is the first that fits; its free-list entry disappears or is replaced in place by the remainder, exactly when it splits, and the others keep their order |
| `HeapAnswers.AllocFails` | lib/runtime/env.c:182-253 | alloc answers NULL if and only if the size is 0 or every free block is smaller than the rounded size |
| `HeapAnswers.AllocTakes` | lib/runtime/env.c:200-231 | the block taken keeps exactly the rounded size and leaves a free block behind it if it has 64 bytes or more to spare, and is taken whole otherwise |
| `HeapSafety.FreeSafe` | lib/runtime/env.c:261-309 | free removes exactly the region of a live pointer and keeps the invariant; NULL and free blocks change nothing |
| `HeapAnswers.FreeGives` | lib/runtime/env.c:261-309 | the freed block, with the header and data of its successor if that is free, is one free block and the first entry of the free list; the entry of the successor disappears, and the others keep their order |
| `HeapSafety.ExpandSafe` | lib/runtime/env.c:348-380 | growing into the free successor keeps the invariant and enlarges exactly that region, header included |
| `HeapSafety.MoveSafe` | lib/runtime/env.c:384-393 | moving replaces the old region by a new one of at least the size asked, or changes nothing |
| `HeapSafety.ReallocSafe` | lib/runtime/env.c:320-394 | realloc to a non-zero size either changes nothing or replaces the old region by one that holds the rounded size; no other region changes |
| `HeapSafety.ReallocHolds` | lib/runtime/env.c:320-394 | the same of realloc, on a mapping below 2^64 |
| `HeapAnswers.ReallocAnswers` | lib/runtime/env.c:320-394 | for a live block and a non-zero size, realloc answers the same pointer if and only if the block holds the rounded size, or its successor is free and the two with the header between them hold it; and NULL if and only if neither is so and every free block is smaller |
| `HeapAnswers.ReallocInPlace` | lib/runtime/env.c:333-380 | then a block that is large enough stays as it is, and one that grows takes its successor whole; the free list only loses the successor |
| `HeapAnswers.ReallocMoves` | lib/runtime/env.c:384-393 | otherwise realloc is an alloc of the rounded size and, if that is granted, a free of the old block |
| `HeapAnswers.ReallocEdges` | lib/runtime/env.c:320-331 | realloc of NULL is alloc, and realloc to size 0 is free and answers NULL |
| `HeapAnswers.GrowsInPlace` | lib/runtime/env.c:348-380 | after an alloc of 64 on 4096 bytes, realloc to 4000 bytes grows in place, though the successor alone is smaller |
| `HeapView.OthersUntouched` | lib/runtime/env.c:236-242 | writing inside one region leaves the bytes of every other live region |
| `HeapView.CopiedView` | lib/runtime/env.c:384-393 | after the copy the new region starts with all bytes of the old one and the other regions are as before |
| `HeapRuns.StepRefines` | lib/runtime/env.c:182-394 | each alloc, free and realloc keeps the invariant and acts on the map of live regions as its caller expects |
| `HeapRuns.RunSafe` | lib/runtime/env.c:182-394 | over every run the blocks tile the mapping, the free list is duplicate-free and holds exactly the free blocks, and usedSize is the sum of the used blocks |
| `HeapRuns.WrappedRequest` | lib/runtime/env.c:182-253 | on a fresh heap of 4096 bytes a request of 2^64 - 1 gets 32 bytes |
| `HeapRuns.FreeUndoesAlloc` | lib/runtime/env.c:182-309 | freeing what was just allocated restores the blocks if and only if the block was split or its successor was not free, and then its entry is at the front of the free list |
| `HeapRuns.NotAlwaysUndone` | lib/runtime/env.c:182-309 | after blocks of 64, 32 and 32 bytes of which the first two are freed, an alloc of 64 followed by its free merges two blocks that were apart |
| `HeapRuns.FreeCoalesces` | lib/runtime/env.c:276-303 | on a heap without adjacent free blocks, free keeps it so if and only if the predecessor of the block is in use |
| `HeapRuns.AllocCoalesces` | lib/runtime/env.c:200-231 | alloc never creates adjacent free blocks |
| `HeapRuns.NotAlwaysCoalesced` | lib/runtime/env.c:276-303 | two allocations freed in allocation order leave adjacent free blocks |
| `HeapFragments.NoPairs` | lib/runtime/env.c:276-303 | no two adjacent blocks are free if and only if the heap is coalesced |
| `HeapFragments.AllocPairs` | lib/runtime/env.c:182-253 | alloc makes no adjacent free blocks, and ends the pair with the predecessor of the block it takes and, when it takes the block whole, the pair with its successor |
| `HeapFragments.FreePairsOpen` | lib/runtime/env.c:261-309 | free makes one more pair of adjacent free blocks exactly when the predecessor of the block is free, and otherwise none |
| `HeapFragments.ReallocPairs` | lib/runtime/env.c:320-394 | what realloc does to the number of pairs, on each of its paths |
| `HeapFragments.RunPairs` | lib/runtime/env.c:182-394 | over every run the number of adjacent free blocks is what it was, plus one for every free behind a free block, less what allocations and growths took |
| `HeapFragments.Leftovers` | lib/runtime/env.c:182-394 | after a run on a fresh heap that leaves nothing live, whatever the order of the frees, there is one block more than missed merges, and the heap is the fresh heap if and only if no merge was missed for good |
| `HeapRuns.LifoRunShape` | lib/runtime/env.c:182-309 | in runs that free in reverse order of allocation the layout stays used blocks in allocation order, then at most one free block |
| `HeapRuns.LifoRestores` | lib/runtime/env.c:143-151 | such a run from a fresh heap has that shape, and is the fresh heap again whenever nothing is live |
| `HeapRuns.PopAllEmpties` | lib/runtime/env.c:276-306 | freeing everything in reverse order restores one free block over the whole mapping |
| `PosixHeap.PosixHeap.constructor` | lib/runtime/env.c:134-153 | the initial headers are the fresh heap |
| `PosixHeap.PosixHeap.FindFit` | lib/runtime/env.c:194-249 | the loop stops at the first fitting block with its predecessor |
| `PosixHeap.PosixHeap.Alloc` | lib/runtime/env.c:182-253 | the pointer structure takes exactly the modelled step; the new region is all zeros and every other region keeps its bytes |
| `PosixHeap.PosixHeap.Unlink` | lib/runtime/env.c:281-297 | the search loop removes exactly the given block from the free list and keeps the order of the rest |
| `PosixHeap.PosixHeap.Free` | lib/runtime/env.c:261-309 | exactly the modelled step; the region disappears and every other region keeps its bytes |
| `PosixHeap.PosixHeap.ExpandInPlace` | lib/runtime/env.c:348-380 | exactly the modelled step; the old bytes are a prefix of the grown region |
| `PosixHeap.PosixHeap.MoveBlock` | lib/runtime/env.c:384-393 | exactly the modelled step; the old bytes are a prefix of the new region, and a failure leaves everything |
| `PosixHeap.PosixHeap.Realloc` | lib/runtime/env.c:320-394 | exactly the modelled step on all paths; on success the whole old block survives as a prefix, a NULL for a non-zero size leaves all contents |
| `HashSpec.NextPowerOf2Least` | lib/common/hash.c:18-34 | for n at most 2^31 the result is a power of two at least n and the least such; for every larger n, and only then, it is 0 |
| `HashSpec.SmearFills` | lib/common/hash.c:23-29 | the five shifts copy the leading one into every lower bit |
| `HashSpec.BucketIndexIsMod` | lib/common/hash.c:44-47 | masking with a power of two less one is the remainder |
| `HashSpec.InitGood` | lib/common/hash.c:233-248 | a new table has a power-of-two capacity of at least 8 if and only if the capacity asked for is at most 2^31, and then the least such power that is not below it; beyond, it has no bucket |
| `HashSpec.Pow2Steps` | lib/common/hash.c:201-222 | doubling and halving stay within the powers of two of at least 8 |
| `HashSpec.GrowthFits` | lib/common/hash.c:201-206 | the doubled capacity, cut to 32 bits, is again that of a good table if and only if there are fewer than 2^31 buckets |
| `HashSpec.SetGrows` | lib/common/hash.c:312-354 | an insertion doubles the capacity, and relinks every entry, if and only if four times the count plus one exceeds three times the capacity; either way the key has its new value |
| `HashSpec.DeleteShrinks` | lib/common/hash.c:366-401 | deleting a present key halves the capacity if and only if four times the new count is below it and it is at least 16; an absent key changes nothing |
| `HashSpec.StepGood` | lib/common/hash.c:312-434 | every insertion, deletion or clear keeps the capacity a power of two of at least 8 and the count at most three quarters of it; the rehashing cost of an insertion or deletion plus the change of potential is at most 3, or 5 for the potential that also covers clears |
| `HashSpec.RunGood` | lib/common/hash.c:312-434 | all of it over every run |
| `HashSpec.StepTight` | lib/common/hash.c:312-434 | a table with at most c buckets, or at least a quarter of its buckets in use, stays so under every step, except, and then always, under a clear of a table of more than c buckets |
| `HashSpec.RunShrinks` | lib/common/hash.c:312-401 | after every run of insertions and deletions the table has at most the buckets it was made with, or four times its count is at least its capacity; made with 8, it has 8 or that holds |
| `HashSpec.NotAlwaysTight` | lib/common/hash.c:422-434 | a clear after the seventh insertion leaves 16 buckets without an entry |
| `HashSpec.ShrinksAtQuarter` | lib/common/hash.c:366-401 | with 4 of 16 buckets in use the next deletion leaves 8 buckets |
| `HashSpec.RehashingIsAmortised` | lib/common/hash.c:160-434 | any n insertions and deletions on a table created with capacity C, with any number of clears between them, relink at most 5n + C/2 entries, and without a clear at most 3n + 3C/4 |
| `HashSpec.StepEffort` | lib/common/hash.c:160-434 | the entries an insertion or deletion relinks and the buckets it looks into to do so, plus the change of potential, are at most 10, or 17 for the potential that also covers clears |
| `HashSpec.WorkIsAmortised` | lib/common/hash.c:160-434 | any n insertions and deletions on a table created with capacity C, with any number of clears between them, relink entries and look into old buckets at most 17n + 5C/2 times together, and without a clear at most 10n + 15C/4 |
| `HashTable.HashTable.constructor` | lib/common/hash.c:233-248 | an empty table of the rounded capacity, valid if and only if the capacity asked for is at most 2^31 |
| `HashTable.FindEntry` | lib/common/hash.c:123-148 | the search stops at the first entry with the key and knows its predecessor |
| `HashTable.Lookup` | lib/common/hash.c:123-148 | searching the chain of the slot finds the entry of the key, or shows that the key is absent |
| `HashTable.HashTable.MoveChain` | lib/common/hash.c:170-186 | the inner loop moves every entry of one old chain to its new slot, and counts them |
| `HashTable.HashTable.Resize` | lib/common/hash.c:160-194 | rehashing into a new array keeps entries and contents, relinks each entry once and looks into each old bucket once |
| `HashTable.HashTable.Shape` | lib/common/hash.c:234-354 | each entry lies in the bucket of its hash modulo the capacity, keys are unique, the count is the total chain length and at most three quarters of the capacity |
| `HashTable.LengthOfLeft` | lib/common/hash.c:170-186 | the entries still to visit are as many as the remaining chain positions |
| `HashTable.HashTable.Get` | lib/common/hash.c:278-298 | what the map holds for the key, or absent |
| `HashTable.HashTable.Insert` | lib/common/hash.c:340-353 | a new entry at the head of the chain of its slot adds exactly its key, and no other chain changes |
| `HashTable.HashTable.Remove` | lib/common/hash.c:380-394 | unlinking an entry removes exactly its key |
| `HashTable.HashTable.Set` | lib/common/hash.c:312-354 | the step of the map model, growth included, with the presence flag and the previous value |
| `HashTable.HashTable.Delete` | lib/common/hash.c:366-401 | the step of the map model, shrinking included, with the removed value |
| `HashTable.HashTable.Clear` | lib/common/hash.c:422-434 | an empty table of the same capacity |
| `HashTable.HashTableIterator.constructor` | lib/common/hash.c:440-447 | all keys are still to come, in the order of the buckets and of the chains |
| `HashTable.HashTableIterator.Next` | lib/common/hash.c:449-477 | yields the first pair still to come and leaves the others in their order: a key still to come with its value; answers false exactly when none is left, and then always |
| `HashTable.Items` | include/pi/common/hash.h:377-379 | iterating to the first false yields each key exactly once with its mapped value, bucket by bucket and each chain from its head |
| `Strings.HashString` | lib/common/string.c:8-21 | the loop computes the FNV-1a fold |
| `Strings.HashUnwinds` | lib/common/string.c:8-21 | the hash of the empty string is 2166136261; the hash of a longer string, times 899433627 modulo 2^32 and mixed with its last byte, is the hash of the rest |
| `Strings.TimesPrimeInverts` | lib/common/string.c:13-18 | multiplying by 899433627 undoes multiplying by the prime modulo 2^32 |
| `Strings.RoundInverts` | lib/common/string.c:13-18 | each round is a bijection on 32-bit states |
| `Strings.SuffixCancels` | lib/common/string.c:8-21 | equal suffixes neither create nor hide a collision |
| `Strings.NoSingleByteCollision` | lib/common/string.c:8-21 | changing one byte of a string changes its hash if and only if the byte differs |
| `GcModel.SurvivorsExact` | lib/runtime/gc.c:172-192 | exactly the listed objects that are held survive |
| `GcModel.SurvivorsInOrder` | lib/runtime/gc.c:172-192 | survivors keep their order |
| `GcModel.SurvivorsTwice` | lib/runtime/gc.c:172-192 | a second collection with the same roots frees nothing |
| `GcModel.Life` | lib/runtime/gc.c:281-318 | a count that is kept is between 1 and 65534 |
| `GcModel.LifeOf` | lib/runtime/gc.c:281-318 | an object is freed if and only if 1 + retains - releases reaches zero without having reached 65535, frozen if and only if it reached 65535 first, and until then the count is that balance |
| `GcModel.SwapRemovedOnce` | lib/runtime/gc.c:350-370 | swap-removal takes out one registration of the root and keeps all others |
| `GcModel.SwapRemovedAt` | lib/runtime/gc.c:350-370 | the last registration moves to the place of the first one of the root, and all others stay where they are |
| `GcModel.AddThenRemove` | lib/runtime/gc.c:324-370 | registering a root and removing it leaves the registrations as they were |
| `Gc.BoxedIsHeld` | lib/runtime/gc.c:140-150 | a boxed reference on the VM stack holds its object if and only if the address is below 2^50 |
| `Gc.NumbersHoldNothing` | lib/runtime/gc.c:140-150 | a value of another type on the VM stack holds no object |
| `Gc.RootsWithout` | lib/runtime/gc.c:300-318 | without an object the roots refer to listed objects if and only if they did with it and none of them refers to it |
| `Gc.SizeSumCut` | lib/runtime/gc.c:51-55 | unlinking an object lowers the sum of the sizes by its size |
| `Gc.Collector.constructor` | lib/runtime/env.c:520-541 | an empty collector with a threshold of 1 MB |
| `Gc.Collector.Unlink` | lib/runtime/gc.c:22-29 | removes exactly the object from the doubly linked list |
| `Gc.Collector.FreeObject` | lib/runtime/gc.c:17-59 | removes the object and keeps all counters exact |
| `Gc.Collector.ClearMarks` | lib/runtime/gc.c:68-81 | no listed object is marked or gray |
| `Gc.Collector.MarkRoots` | lib/runtime/gc.c:136-162 | marks exactly the objects that the VM stack holds or a global root points to |
| `Gc.Collector.Sweep` | lib/runtime/gc.c:172-192 | keeps exactly the marked objects in order, with the list well formed and the counters exact |
| `Gc.Collector.Collect` | lib/runtime/gc.c:250-275 | keeps exactly the rooted objects in order, returns the number freed, counts the cycle and sets the threshold; paused, it changes nothing; roots stay valid |
| `Gc.Collector.Obtain` | lib/runtime/gc.c:207-222 | collects exactly when the threshold is reached and again when memory is short, and fails exactly when both requests fail |
| `Gc.Collector.Alloc` | lib/runtime/gc.c:200-244 | the new object is the head of the kept list with count 1 and the newest of all ever allocated; objects and bytes ever allocated are live plus freed; the truncation of sizes to 32 bits is accounted for; good roots refer to what they referred to |
| `Gc.Collector.Retain` | lib/runtime/gc.c:281-298 | adds one retain to the history of the object and touches no other |
| `Gc.Collector.Release` | lib/runtime/gc.c:300-318 | adds one release, and frees the object exactly when it is not frozen and its count is one, which is when its history leaves nothing; the roots refer to listed objects afterwards if and only if they did before and the object was not freed or no root refers to it |
| `Gc.Collector.AddGlobalRoot` | lib/runtime/gc.c:324-348 | appends the root, growing the array as needed |
| `Gc.Collector.RemoveGlobalRoot` | lib/runtime/gc.c:350-370 | swap-removes the first registration, or changes nothing |
| `GcRuns.StepKeeps` | lib/runtime/gc.c:200-392 | each call keeps the list the history of allocations, in order, without what was freed, and leaves of no listed object nothing |
| `GcRuns.StepFrees` | lib/runtime/gc.c:200-392 | a call removes a listed object if and only if it collects while no root refers to the object, or is its last release; what was freed never comes back |
| `GcRuns.StepDangles` | lib/runtime/gc.c:200-392 | a call spoils good roots if and only if it is the last release of an object that a root refers to |
| `GcRuns.RunKeeps` | lib/runtime/gc.c:200-392 | over every run of allocations, retains, releases, collections and moves of the roots the list is the allocation history without what was freed |
| `GcRuns.ListedWhy` | lib/runtime/gc.c:200-392 | after any run an object is still listed if and only if no call of the run collected while it was unrooted or was its last release |
| `GcRuns.IntactWhy` | lib/runtime/gc.c:200-392 | the stack words and the root pointers refer to listed objects or to none at every time of a run if and only if no release of the run frees an object that one of them refers to |
| `GcRuns.RootedOutlives` | lib/runtime/gc.c:250-318 | an object that is rooted throughout a run in which no root comes to dangle is listed at its end |
| `GcRuns.NotAlwaysIntact` | lib/runtime/gc.c:300-318 | a new object that is rooted and then released leaves a dangling root |
| `GcRuns.Alloc` | lib/runtime/gc.c:200-244 | an allocation takes the allocation step of the state machine, with the collections it made |
| `GcRuns.Collect` | lib/runtime/gc.c:250-275 | a collection takes the collection step |
| `GcRuns.Retain` | lib/runtime/gc.c:281-298 | a retain takes the retain step |
| `GcRuns.Release` | lib/runtime/gc.c:300-318 | a release takes the release step, freeing and dangling roots included |
| `GcRuns.AddRoot` | lib/runtime/gc.c:324-348 | registering a root that points to a listed object or to NULL is a move of the roots |
| `GcRuns.RemoveRoot` | lib/runtime/gc.c:350-370 | removing a root is a move of the roots |
| `GcRuns.SetVmStack` | lib/runtime/gc.c:372-379 | registering a stack that refers to listed objects or to none, or clearing it, is a move of the roots |
| `GcRuns.PushWord` | include/pi/runtime/value.h:624-635 | pushing a value that refers to a listed object or to none on the VM stack is a move of the roots |
| `Source.PosAtIs` | lib/compiler/source.c:282-301 | after n characters the line is 1 + the newlines read and the column 1 + the characters since the last newline, modulo 2^32 |
| `Source.Source.constructor` | lib/compiler/source.c:160-172 | both cursors at line 1, column 1 |
| `Source.Source.Read` | lib/compiler/source.c:282-301 | returns the peeked character and moves the forward cursor over it; at the end it answers EOF and moves nothing |
| `Source.Source.Match` | include/pi/compiler/source.h:296-304 | consumes the next character if and only if it is the given one |
| `Source.Source.MatchPred` | include/pi/compiler/source.h:335-343 | consumes the next character if and only if it satisfies the predicate |
| `Lexer.SkipWhile` | lib/compiler/lexer.c:511-512 | the longest run of characters of a class |
| `Lexer.PunctLength` | lib/compiler/lexer.c:294-500 | a punctuator is one to three characters inside the text |
| `Lexer.MaximalMunch` | lib/compiler/lexer.c:294-500 | no longer punctuator starts at the same place |
| `Lexer.GetKeyword` | lib/compiler/lexer.c:60-126 | the binary search over the table makes one comparison, and accepts a length of two or more when as many characters are a prefix of "var" or go on after it with NUL |
| `Lexer.KeywordIsPrefix` | lib/compiler/lexer.c:246-262 | a word of the text is taken for the keyword if and only if its length, cut to 32 bits, is 2 or 3 and as many of its first characters are those of "var"; below 2^32 characters these are "va" and "var" |
| `Lexer.KeywordWraps` | lib/compiler/lexer.c:246-262 | a word of 2^32 + 2 characters that begins with "va" is taken for the keyword |
| `Lexer.ScanAt` | lib/compiler/lexer.c:505-526 | every scan stays inside the text and, before its end, consumes a character |
| `Lexer.ItemsTile` | lib/compiler/lexer.c:505-526 | white space and lexemes concatenate to the text |
| `Lexer.ItemsProgress` | lib/compiler/lexer.c:505-526 | every call but the last consumes a character, only white space is skipped, and the end comes within length + 1 calls |
| `Lexer.CommentEnd` | lib/compiler/lexer.c:275-292 | pairing comment delimiters recursively from left to right always ends, inside the text and after its start |
| `Lexer.CommentRoundTrip` | lib/compiler/lexer.c:275-292 | a comment with comments nested to any depth ends exactly at its own closing delimiter |
| `Lexer.CommentEndIs` | lib/compiler/lexer.c:275-292 | the comment ends just after the delimiter that closes its body, read as a tree of characters and nested comments, and at the end of the text if no such body closes |
| `Lexer.DeepestIs` | lib/compiler/lexer.c:275-292 | while the scanner passes a comment body, its counter rises by exactly the nesting depth of the body |
| `Lexer.CounterFits` | lib/compiler/lexer.c:275-292 | the counter of a comment stays within an int if and only if fewer than 2^31 - 1 comments are nested inside each other in it |
| `Lexer.ScanMultiLineComment` | lib/compiler/lexer.c:275-292 | the counting loop stops exactly where the recursive pairing closes, or at the end of the text, and the greatest value of its counter is the greatest number of comments open at a time |
| `LexerLaws.NestedComment` | lib/compiler/lexer.c:275-292 | a slash and a star start a comment up to where its delimiters pair |
| `Lexer.ScanSingleLineComment` | lib/compiler/lexer.c:264-273 | stops just after the newline, or at the end of the text |
| `LexerLaws.LineComment` | lib/compiler/lexer.c:264-273 | two slashes start a comment up to and with the first newline, or up to the end |
| `Lexer.ScanLiteral` | lib/compiler/lexer.c:167-185 | consumes the longest run of digits and fills the token with its radix, or answers INVAL and fills nothing |
| `Lexer.ScanNumericLiteral` | lib/compiler/lexer.c:207-244 | after a zero any character is consumed, and only b, c, d and x lead to a literal |
| `LexerLaws.BinaryLiteral` | lib/compiler/lexer.c:207-220 | 0b or 0B and then characters 0, 1 and _, as far as they reach, are one integer literal of radix 2 |
| `LexerLaws.OctalLiteral` | lib/compiler/lexer.c:207-223 | 0c or 0C and then 0 to 7 and _ are one integer literal of radix 8 |
| `LexerLaws.DecimalLiteral` | lib/compiler/lexer.c:207-226 | 0d or 0D and then 0 to 9 and _ are one integer literal of radix 10 |
| `LexerLaws.HexadecimalLiteral` | lib/compiler/lexer.c:207-229 | 0x or 0X and then 0 to 9, a to f, A to F and _ are one integer literal of radix 16 |
| `LexerLaws.PlainLiteral` | lib/compiler/lexer.c:238-241 | a digit other than 0 and then 0 to 9 and _ are one integer literal of radix 10 |
| `LexerLaws.EmptyLiteral` | lib/compiler/lexer.c:167-185 | a base letter without a digit of its base is consumed with its zero and answers INVAL without a token |
| `LexerLaws.ZeroIsUndefined` | lib/compiler/lexer.c:207-243 | a zero without a base letter and the character after it are consumed, and the answer is never set |
| `Lexer.ScanIdentifierOrKeyword` | lib/compiler/lexer.c:246-262 | the longest identifier, with the keyword code when the table search accepts it at its 32-bit length |
| `LexerLaws.WordIs` | lib/compiler/lexer.c:246-262 | a letter, _ or $, and then all letters, digits and _, are one word, an identifier or the keyword |
| `Lexer.Munch` | lib/compiler/lexer.c:298-500 | every branch of the switch consumes the longest punctuator and answers its code, which for square and curly brackets is that of round ones |
| `LexerLaws.PunctTables` | lib/compiler/lexer.c:298-500 | the punctuators of one, two and three characters, written out |
| `LexerLaws.PunctIs` | lib/compiler/lexer.c:298-500 | a punctuator that no longer one begins with is scanned whole, with the code of its characters |
| `LexerLaws.BracketsAndOthers` | lib/compiler/lexer.c:298-500 | square and curly brackets have the codes of round ones, and a character that starts nothing is invalid |
| `Lexer.ScanPunctuator` | lib/compiler/lexer.c:294-503 | comments and punctuators with their codes, and the token filled |
| `Lexer.ScanToken` | lib/compiler/lexer.c:505-526 | skips white space, marks the lexeme, and does what the scanner of its first character does |
| `LexerLaws.GapIs` | lib/compiler/lexer.c:505-514 | spaces and the characters 9 to 13, as far as they reach, are skipped before the lexeme |
| `Lexer.TokenDescribed` | lib/compiler/lexer.c:132-151 | a filled token carries its lexeme, its length, code and radix, and the line and column of its first character |
| `Lexer.ScanText` | lib/compiler/lexer.c:505-526 | scanning a text gives the tokens of the tiling, each at its line and column |
| `Values.Tags` | include/pi/runtime/value.h:356-374 | the tag tests look at the fourteen high bits only |
| `Values.BoxIs` | include/pi/runtime/value.h:200-212 | a boxed word is the tag, the type nibble and the 44 low bits of the data, side by side |
| `Values.BoxedWords` | include/pi/runtime/value.h:200-273 | the words of null, booleans, characters and integers, as numbers |
| `Values.TypeIs` | include/pi/runtime/value.h:356-394 | the type of a word: a double unless the thirteen bits below the sign are set, then an object with the sign, and otherwise what the next four bits say |
| `Values.TypeOfBox` | include/pi/runtime/value.h:383-394 | a boxed word has the type it was boxed with |
| `Values.BoolRoundTrip` | include/pi/runtime/value.h:249-252 | unboxing returns the boolean, and the type is BOOL |
| `Values.CharRoundTrip` | include/pi/runtime/value.h:256-259 | unboxing returns the character, negative ones included, and the type is CHAR |
| `Values.UIntRoundTrip` | include/pi/runtime/value.h:263-266 | unboxing returns the unsigned integer, the type is UINT, and it is true if and only if it is not zero |
| `Values.SIntRoundTrip` | include/pi/runtime/value.h:270-273 | unboxing returns the signed integer, negative ones included, and the type is SINT |
| `Values.ObjectRoundTrip` | include/pi/runtime/value.h:300-312 | the type of a boxed non-null address is OBJC, and unboxing returns the address if and only if it is below 2^50 |
| `Values.RealRoundTrip` | include/pi/runtime/value.h:277-296 | the type of a boxed double is REAL, and unboxing returns it if and only if it is not negative infinity and not a non-canonical NaN |
| `Values.ObjectTest` | include/pi/runtime/value.h:367-374 | a word that passes the object test has the type OBJC |
| `Bytecode.Congruent` | lib/svm/svm.c:443-513 | wrapped operands give the wrapped result of the exact operation |
| `Bytecode.ArithmeticMeans` | lib/svm/svm.c:443-641 | ADD, SUB and MUL on unsigned values push the exact result modulo 2^32 |
| `Bytecode.SignedArithmeticMeans` | lib/svm/svm.c:443-641 | ADD, SUB and MUL on signed values push the exact result, or overflow if and only if it does not fit in 32 bits |
| `Bytecode.BitwiseMeans` | lib/svm/svm.c:266-356 | BAND, BOR and BXOR work on the 32-bit patterns of two integers, and the left operand decides the type of the result |
| `Bytecode.ComplementMeans` | lib/svm/svm.c:247-264 | BNOT complements all 32 bits, and keeps the type |
| `Bytecode.NotMeans` | lib/svm/svm.c:365-395 | NOT of an integer tests for zero |
| `BytecodeLaws.NotOfOthers` | lib/svm/svm.c:365-395 | NOT negates a boolean, tests a character for zero, and is true of null |
| `BytecodeLaws.PrefixOfOthers` | lib/svm/svm.c:247-441 | NOT of a double tests for the two zeros; NOT of an object, BNOT of anything but an integer and NEG of anything but a number are not implemented |
| `Bytecode.LogicMeans` | lib/svm/svm.c:397-412 | AND and OR of two unsigned values are those of their truth |
| `BytecodeLaws.LogicIs` | lib/svm/svm.c:397-412 | AND and OR of any two words push the boolean of whether both, or one, have one of their low 44 bits set |
| `BytecodeLaws.TruthIs` | include/pi/runtime/value.h:481-519 | in the release build a word is true if and only if some of its low 44 bits is set |
| `BytecodeLaws.TruthOfBoxed` | include/pi/runtime/value.h:481-519 | a boxed boolean, character or integer is true if and only if it is not false or zero, and null is false |
| `BytecodeLaws.OneIsFalse` | include/pi/runtime/value.h:481-519 | the double 1.0 is false |
| `BytecodeLaws.CharArithmetic` | lib/svm/svm.c:443-641 | ADD and SUB with a character on the left and a character or integer on the right give the character of the exact result in 8 bits; MUL of characters is not implemented |
| `BytecodeLaws.OtherTypes` | lib/svm/svm.c:247-641 | arithmetic and bitwise instructions on null, a boolean or an object are not implemented |
| `Bytecode.NegMeans` | lib/svm/svm.c:421-441 | NEG negates a signed value, reads an unsigned one as signed, and overflows exactly on the least integer |
| `Bytecode.BinaryMeans` | lib/svm/svm.c:266-641 | ADD, SUB, MUL, BAND, BOR and BXOR on integers of either type push the exact result modulo 2^32 with the type of the left operand, or overflow if and only if a signed result does not fit |
| `Bytecode.PrefixMeans` | lib/svm/svm.c:247-441 | BNOT and NEG on integers of either type push the exact result modulo 2^32, or overflow if and only if the least integer is negated |
| `BytecodeLaws.ControlIs` | lib/svm/svm.c:169-210 | NOP and EQ do nothing, EXIT exits with the byte behind it, RET on an empty stack exits with 0, and a byte that is no instruction exits with 1 |
| `BytecodeLaws.ReturnOfOthers` | lib/svm/svm.c:185-210 | RET of a boolean, a character and null exits with its number |
| `BytecodeLaws.CodeBytes` | include/pi/svm/opcode.inc:9-186 | the postfix code of each operator, in bytes |
| `BytecodeLaws.DuplicatesTheTop` | lib/svm/svm.c:232-237 | 2, 3, DUP, ADD, RET exits with 6 and leaves the 2 |
| `Bytecode.CompiledCode` | lib/svm/svm.c:217-872 | running the postfix code of an expression anywhere in a chunk, its constants in the pool within reach of one byte, fails with signed overflow if one of its signed operations overflows; otherwise it pushes its value modulo 2^32, with its type, and leaves the stack below untouched, without underflow. Expressions have immediates, constants, six binary and two prefix operators, an operand combined with its own copy (DUP), and a second value dropped (POP) or printed (OUT) |
| `Bytecode.CompiledProgram` | lib/svm/svm.c:185-210 | ended by RET, it fails with signed overflow or exits with the value modulo 2^32 read as a signed integer |
| `Bytecode.UnsignedNeverOverflows` | lib/svm/svm.c:247-641 | an expression without signed constants and negation never overflows |
| `Bytecode.SignedIsExact` | lib/svm/svm.c:421-641 | signed arithmetic overflows if and only if the exact value of some subexpression leaves the signed integers, so what it returns is the exact value |
| `Bytecode.ConstantLoads` | include/pi/svm/chunk.h:130-137 | LDC loads the constant it was written for if and only if its index is below 256 or the constant it aliases is the same |
| `Bytecode.ConstantAliases` | include/pi/svm/chunk.h:130-137 | in a pool of 257 different constants the last one loads the first |
| `Svm.ValueArray.constructor` | lib/runtime/value.c:819-836 | an empty array on the inline buffer, or on a larger one |
| `Svm.ValueArray.Resize` | lib/runtime/value.c:853-881 | the contents move to the new buffer, cut to one less than its capacity when they do not fit |
| `Svm.ValueArray.Push` | include/pi/runtime/value.h:624-635 | appends, whatever growing it takes |
| `Svm.ValueArray.Top` | include/pi/runtime/value.h:642-652 | the last value |
| `Svm.ValueArray.Pop` | include/pi/runtime/value.h:654-664 | removes and returns the last value |
| `Svm.ValueArray.Get` | include/pi/runtime/value.h:666-674 | the value at the index |
| `Svm.Chunk.constructor` | lib/svm/chunk.c:9-22 | an empty chunk |
| `Svm.Chunk.PushLine` | lib/svm/chunk.c:43-57 | a new line with its text starts where the code ends |
| `Svm.Chunk.Grow` | lib/svm/chunk.c:59-74 | the code moves to a buffer of 8 or four times the capacity |
| `Svm.Chunk.WriteOp` | lib/svm/chunk.c:76-89 | appends the opcode and moves the end of the current line |
| `Svm.Chunk.WriteShortOp` | lib/svm/chunk.c:91-105 | appends the opcode and its argument and moves the end of the current line |
| `Svm.Chunk.AddConst` | include/pi/svm/chunk.h:122-125 | appends the constant to the pool and returns its index |
| `Svm.Chunk.WriteLdC` | include/pi/svm/chunk.h:130-137 | appends the constant to the pool and its index modulo 256 to the code; buffers stay or are new |
| `Svm.Chunk.WriteLdI` | include/pi/svm/chunk.h:141-148 | appends the immediate |
| `Svm.Emit` | lib/svm/chunk.c:76-105 | writing an expression appends its postfix code and its constants |
| `Svm.LoadValue` | lib/svm/svm.c:217-222 | LDC and LDI push what their operand names and step over it |
| `Svm.ShuffleStack` | lib/svm/svm.c:232-237 | POP and OUT take the top off, and DUP pushes a copy of it; what that means in a program is `CompiledCode` |
| `Svm.Operate` | lib/svm/svm.c:247-641 | the operands are popped in the right order and the answer is pushed, whatever growing it takes |
| `Svm.Execute` | lib/svm/svm.c:169-881 | one turn of the loop does what the specification of its instruction says, on the stack and the instruction pointer |
| `Svm.SvmLoop` | lib/svm/svm.c:7-918 | the loop ends as the specification of the bytecode does, with its exit code and stack |
| `Runtime.RunSvmChunk` | lib/svm/svm.c:920-940 | a chunk runs on an empty new stack, which is the VM stack of the collector until the chunk exits, and stays so when an error leaves |
| `Runtime.Compile` | lib/svm/chunk.c:76-105 | the chunk of an expression holds its postfix code, RET, and its constants |
| `Runtime.Evaluate` | lib/svm/svm.c:920-940 | emitting, running and returning an expression gives its value modulo 2^32 read as a signed integer, or signed overflow if one of its signed operations overflows, however often the buffers grow |
| `Arena.AlignSizeIs` | lib/common/arena.c:69-72 | the mask rounds up to a multiple of 8 for sizes up to 2^64 - 8, and answers 0 beyond |
| `Arena.PlaceHolds` | lib/common/arena.c:115-153 | the used part stays aligned and inside its block, and covers the bytes asked for if and only if no sum wraps |
| `Arena.PlaceWraps` | lib/common/arena.c:115-153 | two requests near 2^64 wrap: one empties a block in use, the other reserves nothing |
| `Arena.AllocPlaces` | lib/common/arena.c:115-153 | with r the size rounded up to 8: if the newest block has r bytes left, the grant starts at the end of its used part, and the blocks and the total stay; otherwise exactly one block is added, of r bytes or the block size, whichever is larger, the total grows by that, and the grant starts at its beginning |
| `Arena.StaysInBlock` | lib/common/arena.c:119-126 | after 16 of 4096 bytes, 3000 bytes are granted at offset 16 of the same block |
| `Arena.ResetEmpties` | lib/common/arena.c:165-182 | a reset keeps every block with its size, empties it, and ends all grants |
| `Arena.GrantsApart` | lib/common/arena.c:120-152 | grants since the last reset are aligned, inside their block, and disjoint as address ranges |
| `Arena.ApplyGood` | lib/common/arena.c:115-182 | an allocation adds one grant of the size asked and keeps all others, and each step keeps the used parts aligned and inside, the blocks apart and the total the sum of their sizes |
| `Arena.RunGood` | lib/common/arena.c:115-182 | all of it over every run of allocations and resets |
| `Arena.Arena.constructor` | lib/common/arena.c:79-90 | an empty arena |
| `Arena.Arena.Alloc` | lib/common/arena.c:115-153 | takes the modelled step: the region at the returned address is the newest grant, in the current block or in a new block that becomes head and current |
| `Arena.Arena.Reset` | lib/common/arena.c:165-182 | takes the modelled step: every block is empty again, none is lost, and the current block is the head |
| `Arena.Example` | lib/common/arena.c:79-182 | on a new arena two allocations lie one after the other, and a reset may follow |

## Left out

- PosixHeap.PosixHeap.Realloc: the headers inside the mapping are structures beside the data bytes, so a header that merging turns into data holds arbitrary bytes there; that is also why the grown part of a region is not described.
- PosixHeap.PosixHeap.constructor: the mapping and malloc calls; the mapping is a parameter, 16-aligned and of non-zero size.
- HeapModel.InitInv: takes the ends of the mapping; how its size comes about is `MappingHolds` and `CreateInv`.
- HeapModel.BlockSizeCovers: memory corruption by the caller is outside the model; free is given NULL or a block's pointer, realloc NULL or a live pointer.
- HashTable.HashTable.Set: assumes that a table that must grow has fewer than 2^31 buckets, the exact condition of `GrowthFits`; ownership and freeing of key characters and allocation failure are not modelled, and keys are byte strings with the correct cached hash.
- Gc.Collector.constructor: the gray list and the unused configuration fields.
- Gc.Collector.Collect: object references to other objects do not exist in the source yet, flags are separate booleans, and the counters other than the threshold are unbounded; a collection over a dangling root is undefined in C, so it requires good roots unless it is paused.
- Gc.Collector.Alloc: the environment's allocator is a function parameter; the error raised when memory is short twice is the result `None`, and the jump it performs is left out; it requires good roots only when it may collect.
- Svm.ValueArray.Push: assumes that a full array has a capacity below 2^31, beyond which the doubled capacity wraps.
- Svm.ValueArray.Resize: assumes that the inline values fit in the new buffer and that only an empty array shrinks to nothing, since C would write outside the buffer or wrap the count.
- Svm.Chunk.Grow: assumes a capacity below 2^30, beyond which the quadrupled capacity wraps.
- Svm.Chunk.WriteOp: has the condition of `Grow`, only when it must grow.
- Svm.Chunk.WriteShortOp: the same.
- Svm.Chunk.WriteLdI: the same.
- Svm.Chunk.AddConst: has the condition of `Push`.
- Svm.Chunk.WriteLdC: the same, and that of `Push` for the pool.
- Svm.Operate: the arithmetic, bitwise and logic instructions call the operators of the specification, so what it proves is the order of the operands, the pops, the push and the growth; what the operators compute is stated by `ArithmeticMeans`, `SignedArithmeticMeans`, `BitwiseMeans`, `ComplementMeans`, `NotMeans`, `LogicIs` and `NegMeans`.
- Svm.Execute: as `Operate`; double arithmetic and DIV, POW and REM end in `Unmodelled`.
- Svm.SvmLoop: the switch build of the loop in a release configuration; popping an empty stack, running past the code, an absent constant and signed overflow end the model, since C leaves them undefined or jumps; the computed-goto build is left out.
- Runtime.RunSvmChunk: printing, and the error handler that an error jumps to.
- Runtime.Evaluate: an expression of at most 256 constants, since a later one would be aliased (`ConstantLoads`).
- Bytecode.BinaryMeans: is about integers; what other types do is `NotOfOthers`, `PrefixOfOthers`, `CharArithmetic` and `OtherTypes`, double arithmetic and DIV, POW and REM are not modelled (`Unmodelled`), and jumps and the other comparison opcodes are illegal opcodes in the source as well.
- Lexer.ScanNumericLiteral: the result of a zero without a base letter is uninitialised in the source and is `Undefined` here.
- Lexer.ScanToken: the character classes are those of the C locale; the source casts `isspace` and `isdigit` to a pointer to a function returning bool, which is read here as the test they name.
- Lexer.ScanMultiLineComment: the counter is not cut to an int, since exceeding one is undefined in C; `CounterFits` says when it does not.
- Source.Source.Read: text sources only; files and the interactive stream depend on the stream underneath.
- Arena.Arena.Alloc: requires that neither sum wraps, the exact condition of `PlaceHolds`; malloc is a parameter that gives aligned blocks apart from all others.
- The string comparisons that ignore case or order strings.
- `piIsTrue` of the debug build, `piValueCompareTo`, value hashing and printing: they add no state, and the first two differ between builds or are not antisymmetric.
- Environments and their teardown, Windows handlers, the parser, code generation, diagnostics, disassembly and the command line.
