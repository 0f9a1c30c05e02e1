# A verified model of the malloc lab allocators and their driver

The repository holds heap allocators that live in one simulated `sbrk` heap, and a trace
driver that judges them. The heap is an array of bytes. Every block carries its size and
allocated bit in a header and a footer word, and neighbours are found only by arithmetic on
those words. This project models

- `memlib.c`: the bounded heap whose break only moves up (`MemLib`);
- `mm-firstfit.c`: the complete first-fit allocator over an implicit list (`ImplicitList`);
- `mm.c`: the same heap with its free blocks threaded on twenty segregated lists, for headers
  without the realloc tag (`SegLists`, `SegregatedLists`);
- `mdriver.c`: the range list, `eval_mm_valid` and `eval_mm_util` (`Ranges`, `Driver`);
- `fcyc.c`: the K-best sampler (`Sampling`).

The methods read and write heap words, link words, list nodes and arrays in place. Each one is
proved against a function on the sequence of blocks (`Blocks`), and what those functions mean
is proved separately: `Effects` (what a client sees, undo), `CanonicalForm` (freeing in any
order), `TraceTheorems` (whole runs). `Layout` and `Frames` connect block sequences with heap
words and say which bytes may change; `Words` is the byte and word arithmetic.

Conventions. Addresses are byte offsets from `mem_start_brk`, which is 8-aligned; NULL is 0,
which is never a payload address. Words are 4 bytes, little-endian, because the Makefile builds
with `-m32`. `size_t` arithmetic wraps at 2^32 and the conversion to `int` in `mem_sbrk` is
modelled. Where a step of the source is repeated or long it is a method of its own here
(`PutTags` for the header-then-footer idiom, one method per case of `coalesce`, one per request
type of the driver's loops).

What the proofs found in the code:

- The size rounding of `mm_malloc` is right exactly for requests up to 2^32 - 16
  (`Effects.AdjustedSizeExact`); beyond that it comes to 0 or 8 bytes, which leaves no payload
  (`Effects.AdjustedSizeWraps`).
- `mm_init` in `mm-firstfit.c` compares the result of `mem_sbrk` with NULL, but refusal is -1.
  From an empty heap the call cannot be refused, so the comparison never matters
  (`ImplicitList.Allocator.Init`).
- `TODO.md` asks that `realloc(p, 0)` act as `free(p)`. `mm-firstfit.c` leaves the process
  instead (`ImplicitList.Allocator.Realloc`).
- The overlap test of `add_range` passes a range that strictly encloses a stored one
  (`Ranges.OverlapTestExact`, `Ranges.EnclosureMissed`).
- The content check after `mm_realloc` compares a signed `char` with a value up to 255, so the
  driver rejects a correct reallocation exactly when the id's low byte is 128 or more
  (`TraceTheorems.AcceptsExactly`, `TraceTheorems.HighByteRejected`).
- The comment in `mm.c` that lists are kept in ascending order is not what the code does. The
  loop compares a size that has already been shifted down, so every insertion is at the list
  head. An insertion keeps a list ascending exactly when the block is no larger than the list's
  first (`SegregatedLists.Allocator.InsertBlock`, `SegLists.InsertAscends`), three legal steps
  from `mm_init` already lose the order (`Lockstep.OrderLost`), and comparing the size before
  shifting it would keep it (`SegLists.UnshiftedAscends`).

## Model

| member | source | states |
|---|---|---|
| Driver.Driver.EvalMmValid | mdriver.c:585-693 | on every well-formed trace the driver, all its checks included, returns 1 if and only if every request is served and no reallocated id has a low byte of 128 or more; otherwise it stops at the first request of which that is not so, leaving the process if that is an unserved REALLOC and returning 0 if it is an unserved ALLOC or a served REALLOC of such an id; it accepts whenever the requests together cannot outgrow the heap area; after acceptance each live id's pointer and size are recorded, its range is in the list and its payload holds its low byte |
| TraceTheorems.WholeRunSoundness | mdriver.c:585-693 | of the judge that `EvalMmValid` is proved to agree with: it accepts every well-formed trace whose requests together cannot outgrow the heap area and whose reallocated ids have low bytes below 128 |
| TraceTheorems.AcceptsExactly | mdriver.c:656-689 | of the same judge: it accepts a well-formed trace if and only if the trace runs to its end and every reallocated id has a low byte below 128, and then ends in the run's state |
| Driver.Driver.CheckAfterRun | mm-firstfit.c:187-213 | when the driver has accepted a trace, `mm_checkheap` reports no error and lists prologue, every block and epilogue |
| TraceTheorems.HighByteRejected | mdriver.c:661-669 | a concrete affordable trace that runs correctly and is rejected by the signed `char` comparison |
| TraceTheorems.RunsIffServed | mdriver.c:606-689 | a well-formed trace runs to its end if and only if every request on the way is nonzero and fits or may grow the heap |
| TraceTheorems.StepHeap | mm-firstfit.c:113-182 | one request succeeds exactly when it is served, and grows the heap by at most max(asize, 4096) |
| TraceTheorems.HeapGrowthBound | mm-firstfit.c:113-145 | after any run the heap size is at least 16 + 4096 and at most that plus the sum of max(asize, 4096) over the run's requests |
| TraceTheorems.AffordableRuns | mm-firstfit.c:113-145 | requests whose growth amounts sum to at most the heap area are all served |
| Traces.RunSound | mm-firstfit.c:89-182 | after every run the blocks are canonical and within MAX_HEAP, the live blocks are exactly those the live ids hold, each id its own, with room for its request |
| Traces.ReallocSound | mm-firstfit.c:166-182 | `mm_realloc` keeps that invariant, gives a new address and leaves the old block live until it is freed |
| TraceTheorems.FragmentationBound | mm-firstfit.c:125-130 | throughout its life a block serving `size` bytes is between size + 8 and size + 23 bytes |
| TraceTheorems.Conservation | mm-firstfit.c:221-315 | in every reachable state the blocks of the live ids and the free blocks add up to the heap size minus 16 |
| TraceTheorems.AllowedIsPossible | mdriver.c:606-683 | liveness of ids as read off the trace agrees with the slots the driver keeps |
| Driver.Driver.EvalMmUtil | mdriver.c:706-786 | the ratio returned is the peak of the live requested bytes over the final heap size, at least 0 and below 1, and the process exits exactly when some request is not served |
| TraceTheorems.UtilizationBound | mdriver.c:735-785 | the peak of the live requested bytes is at most the final heap size minus 16 |
| TraceTheorems.PeakIsMaximum | mdriver.c:739-741 | the peak bounds the total live request of every prefix and is attained by one |
| TraceTheorems.LiveRequestsFit | mm-firstfit.c:124-130 | live requests plus 8 bytes for each plus 16 never exceed the heap size |
| Driver.NextRun | mdriver.c:737-777 | the running total and running maximum of the loop are the live total and the peak of the prefix |
| Driver.Driver.UtilOp | mdriver.c:722-782 | one request of the utilization loop: the new state, the change of the total, and when the process exits |
| Driver.Driver.CheckAlloc | mdriver.c:612-638 | an ALLOC request returns 0 if and only if it is not served and never leaves the process; otherwise arrays, ranges and payload fill are kept |
| Driver.Driver.CheckRealloc | mdriver.c:640-675 | a REALLOC request leaves the process if and only if it is not served, and returns 0 if and only if it is served and the id's low byte is 128 or more |
| Driver.Driver.AddAndFill | mdriver.c:621-637 | for any pointer: goes on if and only if the range is acceptable, and then fills exactly that payload and records range, pointer and size |
| Driver.Driver.AddAndCompare | mdriver.c:647-674 | for any pointer: goes on if and only if the range is acceptable and every byte within both sizes, as a signed `char`, equals the low byte of the id |
| Driver.Driver.CheckFree | mdriver.c:677-683 | a FREE request is always accepted and unlinks exactly the freed id's range |
| Driver.Driver.HoldsId | mdriver.c:661-669 | the content loop answers whether every byte, read as a signed `char`, equals the id's low byte |
| Driver.Driver.Fill | mdriver.c:633-637 | the payload and nothing else is filled with the low byte of the id, and pointer and size are recorded |
| Driver.Driver.Recorded | mdriver.c:633-637 | filling a new payload keeps the heap's blocks and every other id's payload |
| DriverFacts.AllocFacts | mdriver.c:615-637 | after `mm_malloc` in a sound state the range is acceptable, the range list can be extended and no live payload has changed |
| DriverFacts.ReallocFacts | mdriver.c:642-669 | after `mm_realloc` the new range is acceptable once the old one is removed, other payloads are unchanged, and the first min(old, new) bytes still hold the id |
| DriverFacts.FreeFacts | mdriver.c:677-683 | after `mm_free` the other payloads are unchanged and the remaining ranges are those of the remaining ids |
| DriverFacts.NewRangeAccepted | mdriver.c:399-424 | the payload of a new live block is aligned, in the heap and clear of every stored range |
| DriverFacts.RangesLost | mdriver.c:442-457 | removing by start address unlinks exactly one id's record |
| Ranges.RangeList.AddRange | mdriver.c:389-437 | accepts a range if and only if it is 8-aligned, lies below the break and is disjoint from, or strictly encloses, each stored range; then it is put first, and otherwise the list is unchanged |
| Ranges.AcceptableMeaning | mdriver.c:399-424 | the three tests together pass exactly those ranges |
| Ranges.RangeList.RemoveRange | mdriver.c:442-457 | unlinks the first record that starts at the address, and no other |
| Ranges.RangeList.ClearRanges | mdriver.c:462-472 | empties the list |
| Ranges.OverlapTestExact | mdriver.c:416-418 | the test lets a range through if and only if it is disjoint from the stored one or strictly encloses it |
| Ranges.EnclosureMissed | mdriver.c:415-424 | an overlapping range that is accepted |
| MemLib.Heap.Sbrk | memlib.c:58-69 | the old break, or -1 and ENOMEM exactly when the area does not fit, sizes of 2^31 and more included |
| MemLib.Heap.ResetBrk | memlib.c:48-51 | empties the heap |
| MemLib.Heap.Put | mm-firstfit.c:58-59 | a four-byte store changes those four bytes and the word there reads back |
| MemLib.Heap.PutTags | mm-firstfit.c:233-234 | header, then footer where the new header puts it: both tags of the block, nothing outside it changed |
| MemLib.Heap.Memcpy | mm-firstfit.c:179 | copies between disjoint areas and changes nothing else |
| Words.PutWord | mm-firstfit.c:58-59 | the stored word reads back, words and bytes elsewhere are unchanged |
| Words.PackFields | mm-firstfit.c:54-63 | size and allocated bit come back from a packed word, without a tag |
| Words.WordBits | mm-firstfit.c:54-63 | bit 0 of a word is the allocated bit, bit 1 the realloc tag, and the bits from 3 up are the size |
| ImplicitList.Allocator.Init | mm-firstfit.c:89-106 | from an empty heap with arbitrary bytes: one free block of 4096 bytes, and never the failure code |
| ImplicitList.Allocator.Malloc | mm-firstfit.c:113-145 | when some free block is large enough the lowest such block is placed in and its payload returned; the block sequence and pointer of the pure allocation, NULL for 0, NULL for another size only when `mem_sbrk` refuses, and no byte of any live block changes |
| ImplicitList.Allocator.PlaceOrGrow | mm-firstfit.c:132-144 | the search, and the block placed where it ends or in more memory |
| ImplicitList.Allocator.AdjustSize | mm-firstfit.c:124-130 | the rounded size is a multiple of 8, at least 16, and 8 to 15 bytes above the request |
| ImplicitList.Allocator.GrowAndPlace | mm-firstfit.c:138-144 | when nothing fits: growth by exactly max(asize, 4096) and placement in the coalesced last block, or NULL and no change |
| ImplicitList.Allocator.Free | mm-firstfit.c:152-159 | the block sequence of the pure free; no byte of any other live block changes |
| ImplicitList.Allocator.Realloc | mm-firstfit.c:166-182 | a new block, the old one freed, all bytes of the old payload preserved up to the requested size, every other live block's bytes unchanged; failure, size 0 included, leaves the process |
| ImplicitList.Allocator.CopyPayload | mm-firstfit.c:175-179 | copies every byte of the old block up to the requested size, reads inside the heap, writes inside the new payload and changes nothing else |
| ImplicitList.CopyInBounds | mm-firstfit.c:175-179 | the bytes read, which may run past the old block, lie in the heap and are disjoint from the bytes written |
| ImplicitList.ReallocFrame | mm-firstfit.c:166-182 | the three phases of `mm_realloc` together preserve the old bytes in the new payload and all other live blocks |
| ImplicitList.Allocator.CheckHeap | mm-firstfit.c:187-213 | the walk ends at the epilogue having listed, in ascending order, the prologue at 8, every block's payload once and the epilogue; where sizes and allocated bits agree, it reports no error if and only if every footer equals its header as a whole word |
| ImplicitList.Allocator.CheckReachable | mm-firstfit.c:187-213 | in every state the allocator's operations leave behind, the checker reports no error and lists prologue, every block once and epilogue |
| ImplicitList.Allocator.CheckBlock | mm-firstfit.c:337-345 | silent if and only if the payload is 8-aligned and header and footer are the same word |
| ImplicitList.Allocator.ExtendHeap | mm-firstfit.c:221-239 | grows by the even number of words, in 32-bit arithmetic, and coalesces, or returns NULL and changes nothing exactly when the area does not fit |
| ImplicitList.Allocator.Place | mm-firstfit.c:248-264 | splits or fills the free block as the pure placement does, changing bytes of that block only |
| ImplicitList.Allocator.FindFit | mm-firstfit.c:270-281 | the lowest free block of at least asize bytes, or NULL when there is none |
| ImplicitList.Allocator.Coalesce | mm-firstfit.c:286-315 | merges with whichever neighbours are free, through the tags alone, changing bytes of the merged run only |
| ImplicitList.Allocator.MergeDown | mm-firstfit.c:300-305 | case 3: footer first, then the header below; the tags of one block over both |
| ImplicitList.Allocator.MergeBoth | mm-firstfit.c:306-312 | case 4: the tags of one block over all three |
| Effects.AllocateEffect | mm-firstfit.c:113-145 | NULL exactly when nothing fits and the heap may not grow; otherwise one new 8-aligned live block of size + 8 to size + 23 bytes, all others as they were, canonical blocks, and growth exactly when nothing fitted |
| Effects.AllocateLowest | mm-firstfit.c:132-144 | the block goes to the front of the lowest free block that is large enough, split when 16 bytes or more are left over; when there is none, to the last block of a heap grown by the larger of asize and 4096, or nowhere when that does not fit |
| Effects.AdjustedSizeExact | mm-firstfit.c:124-130 | in 32-bit arithmetic the rounded size has room for the request if and only if the request is at most 2^32 - 16, and then rounding adds at most 15 |
| Effects.AdjustedSizeWraps | mm-firstfit.c:124-130 | for every larger request the rounded size is 0 or 8 bytes |
| Effects.FirstFitIsLowest | mm-firstfit.c:270-281 | the block chosen fits and no lower one does |
| Effects.PlaceEffect | mm-firstfit.c:248-264 | placement keeps the block invariant and the heap size and makes one block live, at most 8 bytes larger than asked |
| Effects.CoalesceEffect | mm-firstfit.c:286-315 | coalescing leaves no adjacent free blocks and keeps heap size and live blocks |
| Effects.ReleaseEffect | mm-firstfit.c:152-159 | freeing removes exactly that live block and keeps the invariant and the heap size |
| Effects.ExtendEffect | mm-firstfit.c:221-239 | extending keeps the live blocks, and its last block is free and large enough |
| Effects.ExtendIsGrownTail | mm-firstfit.c:221-239 | the only difference is that the trailing free block has appeared or grown |
| Effects.PlaceUndone | mm-firstfit.c:152-159 | freeing what was just placed restores the block sequence |
| Effects.AllocateUndone | mm-firstfit.c:113-159 | malloc then free restores the exact block sequence when nothing had to grow, and otherwise leaves just the grown tail |
| CanonicalForm.ReleaseIsMerged | mm-firstfit.c:152-159 | `mm_free` is clearing one allocated bit and merging every run of free blocks |
| CanonicalForm.ReleaseAllClosedForm | mm-firstfit.c:152-159 | freeing any distinct live blocks one by one gives a heap that depends only on the set freed |
| CanonicalForm.FreeOrderIrrelevant | mm-firstfit.c:286-315 | two orders of freeing the same blocks give the same heap |
| CanonicalForm.FreeAllLeavesOne | mm-firstfit.c:286-315 | freeing everything, in any order, leaves one free block of the heap size minus 16 |
| CanonicalForm.CoalesceIsMerged | mm-firstfit.c:286-315 | coalescing at the freed block is merging everywhere |
| CanonicalForm.MergedCanonical | mm-firstfit.c:286-315 | merging yields a canonical sequence of the same total size |
| Layout.WalksInverse | mm-firstfit.c:69-71 | NEXT_BLKP and PREV_BLKP undo each other between all neighbours, prologue and epilogue included |
| Layout.WordsRounded | mm-firstfit.c:226-227 | the bytes asked for are the words, rounded up to whole double words, modulo 2^32 |
| Layout.Splice | mm-firstfit.c:248-315 | rewriting the tags inside one stretch of blocks changes just that stretch of the represented sequence |
| Layout.Appended | mm-firstfit.c:232-235 | a new last block and epilogue written at the old break represent the extended sequence |
| Layout.FrameLive | mm-firstfit.c:248-315 | changes inside a stretch of blocks leave every live block outside it, tags included, byte for byte |
| Frames.CoalesceFrame | mm-firstfit.c:286-315 | coalescing changes no byte of a live block |
| Frames.ExtendFrame | mm-firstfit.c:221-239 | extending the heap changes no byte of a live block |
| Frames.FreeFrame | mm-firstfit.c:152-159 | freeing changes no byte of another live block |
| Frames.CoalesceFree | mm.c:461-480 | coalescing takes exactly the merged run out of the free blocks and adds the merged block |
| Lockstep.RunBoth | mm.c:152-513 | from `mm_init` over any legal sequence of extend, place and free, `mm.c` and `mm-firstfit.c` hold the same blocks, return the same pointers from `extend_heap` and are refused memory at the same steps; the index agrees with the heap throughout and its twenty lists are element for element those the steps determine |
| Lockstep.OrderLost | mm.c:365-371 | a legal run of three steps after which list 4 holds a block of 24 bytes before one of 16 |
| SegregatedLists.Allocator.Init | mm.c:152-176 | clears the twenty lists and sets up the same heap, indexed |
| SegregatedLists.Allocator.ExtendHeap | mm.c:326-350 | the same blocks as the first-fit allocator's, with every free block on a list, and exactly which lists these are |
| SegregatedLists.Allocator.Place | mm.c:492-513 | the same placement, with the block off its list and the remainder at the front of the list for its size |
| SegregatedLists.Allocator.Free | mm.c:239-250 | the same free, with the merged block at the front of the list for its size; no byte of another live block changes |
| SegregatedLists.Allocator.Coalesce | mm.c:443-486 | the same merging, with the merged blocks off their lists and the result at the front of one |
| SegregatedLists.Allocator.MergeBlock | mm.c:461-480 | the three merging branches: which blocks leave their lists and which tags are written |
| SegregatedLists.Allocator.MergeDown | mm.c:467-472 | with only the block below free: footer, then the header below |
| SegregatedLists.Allocator.MergeBoth | mm.c:473-480 | with both neighbours free: the tags of one block over all three |
| SegregatedLists.Allocator.InsertBlock | mm.c:354-403 | the block goes to the front of the list for its size, nothing else about the index changes, and no live byte is touched; the list ascends afterwards if and only if it did before and the block is no larger than its first |
| SegregatedLists.Allocator.DeleteBlock | mm.c:410-437 | the block leaves the list for its size, whose order is kept, and nothing else changes |
| SegregatedLists.Allocator.FindPlace | mm.c:365-371 | the ordering loop passes every block smaller than the shifted size and stops at the first that is not, or at the end, with the neighbour before it at hand |
| SegregatedLists.Allocator.LinkBlock | mm.c:374-400 | the four branches of link writes are one insertion between two neighbours or NULL |
| SegregatedLists.Allocator.UnlinkBlock | mm.c:420-434 | the four branches of link writes are one removal between two neighbours or NULL |
| SegregatedLists.Allocator.PutTags | mm.c:245-246 | PUT over an untagged header: tags that agree on size and allocated bit, whatever stray bit the footer keeps |
| SegregatedLists.Allocator.ClearTag | mm.c:243 | UNSET_TAG on an untagged header changes nothing |
| SegregatedLists.StrayTag | mm.c:102 | a tag bit kept by PUT does not show in size or allocated bit |
| SegregatedLists.MergedIndex | mm.c:458-480 | writing the merged tags damages no link word, and the remaining index is that of the remaining free blocks |
| SegregatedLists.PlacedIndex | mm.c:500-511 | writing the placement's tags damages no link word |
| SegLists.IndexExact | mm.c:136-137 | the lists together hold exactly the free blocks, each in one place, in the list for its size |
| SegLists.WalkEnds | mm.c:368-371 | following next links from a head meets the elements in order and ends in NULL, so no list has a cycle |
| SegLists.LinksInverse | mm.c:126-131 | next and previous links of every listed block undo each other |
| SegLists.InsertAscends | mm.c:365-371 | putting a block first keeps a list ascending if and only if the list ascends and the block is no larger than its first |
| SegLists.RemoveAscends | mm.c:420-434 | taking a block out of an ascending list leaves it ascending |
| SegLists.UnshiftedAscends | mm.c:365-371 | inserting where the loop would stop for the unshifted size keeps a list ascending |
| SegLists.DeleteFromIndex | mm.c:420-434 | the removal's link writes take exactly one block out of the index |
| SegLists.InsertIntoIndex | mm.c:373-400 | the insertion's link writes put exactly one block into the index |
| SegLists.IndexFrame | mm.c:500-511 | writes away from the link words leave the index alone |
| SegLists.ClassIsLog | mm.c:359-363 | the shift loop selects the integer logarithm of the size, capped at list 19 |
| SegLists.ClassMonotone | mm.c:359-363 | larger blocks go to the same or a later list |
| SegLists.RestBelowClassmates | mm.c:367-371 | in a heap of at most MAX_HEAP bytes the shifted size never exceeds a block of the same list, so the ordering loop stops at once |
| SegregatedLists.Allocator.SelectList | mm.c:359-363 | the loop computes the class and the shifted size |
| Sampling.Sampler.AddSample | fcyc.c:67-88 | the array holds the kbest smallest of all samples so far, ascending |
| Sampling.Sampler.SwapDown | fcyc.c:81-87 | the swap loop inserts the last value in its place and leaves the rest |
| Sampling.Sampler.HasConverged | fcyc.c:93-98 | true exactly when at least kbest of the samples seen are at most 1 + epsilon times the smallest of them |
| Sampling.ConvergedMeaning | fcyc.c:93-98 | comparing the last of the k best with the first decides that count |
| Sampling.CountWithinIsSize | fcyc.c:97 | the count is the number of positions whose sample is at most (1 + epsilon) times the given value |
| Sampling.Sampler.Fcyc | fcyc.c:129-168 | takes between 1 and max(1, maxsamples) samples, stops as soon as kbest of those taken are at most 1 + epsilon times their smallest and not before unless maxsamples is reached, and returns the smallest sample taken |
| Sampling.BestMeaning | fcyc.c:67-88 | the kept values are an ascending selection of the samples, and nothing left out is smaller |
| Sampling.BestStep | fcyc.c:70-76 | one more sample changes the k best as the two branches do |
| Sampling.FirstIsMinimum | fcyc.c:162 | the first kept value is the minimum of all samples |

## Left out

- ImplicitList.Allocator.Malloc: requests above 2^32 - 16 are not modelled; there the rounded size is 0 or 8 bytes (`Effects.AdjustedSizeWraps`).
- ImplicitList.Allocator.Realloc: the same requests are not modelled, nor is a NULL pointer, a clause of `TODO.md` that `mm-firstfit.c` does not implement.
- ImplicitList.Allocator.ExtendHeap: word counts that come to fewer than 16 bytes (fewer than three words, or a count that wraps around 2^32 bytes), which no caller asks for, are not modelled: 8 bytes would be a block without payload, and 0 bytes would put the footer over that of the last block.
- SegregatedLists.Allocator.ExtendHeap: the same word counts are not modelled; `mm.c` raises them to 8 bytes, where the link words would fall on the footer and the epilogue.
- MemLib.Heap.Sbrk: overflow of the pointer sum past the end of the 32-bit address space is not modelled; offsets are unbounded integers.
- Ranges.RangeList.ClearRanges: the records are unlinked but their deallocation, like every libc `malloc` and `free`, is not modelled.
- Sampling.Sampler.HasConverged: samples and epsilon are real numbers; floating-point rounding is not modelled.
- `mm_malloc` of `mm.c`: its search loop never advances the list and it tests an undeclared variable, so there is no behaviour to model; `extend_heap`, `place` and `mm_free` are the steps instead.
- `mm_realloc` of `mm.c` and the realloc tag: it passes bytes where `extend_heap` takes words; the model keeps all headers untagged.
- Negative request sizes in a trace: the driver would convert them to very large `size_t` values; traces here have sizes from 0 to 2^31 - 1.
- `mm2.c`: unfinished; several of its functions have no body.
- Messages, the `errors` counter, trace file parsing, `main`, option handling, `eval_mm_speed` and the libc evaluation: input, output and plumbing.
- `clock.c`, `ftimer.c`, `fsecs.c`, cache clearing and tick compensation: hardware counters and timers; a measurement is an arbitrary real number.
