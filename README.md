# ummalloc: an implicit free-list allocator with boundary tags, in Dafny

This project models the user-space allocator of the xv6 malloc lab,
`xv6-malloclab/user/ummalloc.c`, and proves what it does to the heap.

**Heap layout**
- The heap is a run of 32-bit words obtained from `sbrk`.
- It starts with a padding word, then the prologue block (header and footer only, 8 bytes, allocated).
- Then comes an implicit list of blocks. Each block has a header and a footer word. Both hold `PACK(size, alloc)`, where size is in bytes.
- A size-0 allocated epilogue header ends the heap.

**Operations**
- `mm_init` sets the heap up and grows it by `CHUNKSIZE` bytes.
- `mm_malloc`:
  - rounds a request up with `adjust`;
  - searches the blocks first fit with `find_fit`;
  - otherwise grows the heap with `extend_heap`, by `max(asize, CHUNKSIZE)` bytes;
  - places the request with `place`, which splits off a free remainder of at least one double word.
- `mm_free` clears the allocated bit and merges the block with its free neighbours (`coalesce`).
- `mm_realloc`:
  - keeps the block when the adjusted size is equal;
  - shrinks the block in place with `place` when it is smaller;
  - for a greater size, `handle_size_greater` grows the block over a free successor, or else moves the payload to a newly allocated block and frees the old one.

**The model has three levels:**

- `BlockFormat` (BlockFormat.dfy):
  - the word format: `PACK`, `GET_SIZE`, `GET_ALLOC`;
  - the address macros `GET`, `HDRP`, `FTRP`, `NEXT_BLKP`, `PREV_BLKP`;
  - `max`, `adjust_size` and `adjust`.
- `HeapLayout` (HeapLayout.dfy):
  - the abstraction. A heap's words `mem` lay out a list of blocks `bs`, given in double words, with the prologue first.
  - `Wf(mem, bs)` is the boundary-tag invariant: padding word, matching header and footer for every block, and the epilogue.
  - first fit, splitting (`Split`, `PlaceBlocks`) and merging (`Coalesced`) on the block list, and the words each operation writes.
- `HeapOps` (HeapOps.dfy) defines the heap each public operation leaves, and proves the allocator's promises about those states:
  - first fit, or growth;
  - NULL exactly on failure, with nothing changed;
  - merging of free neighbours;
  - no two adjacent free blocks after malloc and free;
  - payload preservation by realloc.
- `Ummalloc` (Ummalloc.dfy): the allocator itself, as the class `Heap`.
  - Its fields are the heap words `mem`, `heap_listp` and the `sbrk` capacity, plus the ghost block list.
  - It has one method per C function and macro that writes memory.
  - The entry points keep `Valid()`, the heap invariant (`Wf` together with heap_listp and the `sbrk` bound). They are Coalesce, ExtendHeap, FindFit, MmMalloc, MmFree, MmRealloc and the helpers they call; Init and MmInit establish it (MmInit once the first `sbrk` succeeds). Each is proved to leave exactly the state the corresponding `HeapOps` or `HeapLayout` function describes.
  - The word-level steps state the exact words they leave, either as a raw word update or as a `HeapLayout` function. These are Put, Sbrk, InitBlock, SetNewEpilogue, Place, InitTags, MergeNext, MergePrev, MergeBoth and Memcpy.

**Pointers** are byte offsets from the start of the heap, so the word at pointer `p` is `mem[p / 4]`. NULL is 0, which is never a payload pointer: the padding word sits there.

## Model

| member | source | states |
|---|---|---|
| BlockFormat.Pack | xv6-malloclab/user/ummalloc.c:23 | PACK(size, alloc) is size with the allocated bit or'ed in: size itself for bit 0 |
| BlockFormat.GetSize | xv6-malloclab/user/ummalloc.c:32 | GET_SIZE clears the three low bits: a multiple of 8, at most the word, less than 8 below it |
| BlockFormat.GetAlloc | xv6-malloclab/user/ummalloc.c:33 | GET_ALLOC is bit 0 of the word |
| BlockFormat.PackRoundTrip | xv6-malloclab/user/ummalloc.c:23-33 | GET_SIZE and GET_ALLOC of PACK(size, alloc) give back size and alloc for every 8-aligned size |
| BlockFormat.UnpackRoundTrip | xv6-malloclab/user/ummalloc.c:23-33 | a word with bits 1 and 2 clear is PACK of its own GET_SIZE and GET_ALLOC |
| BlockFormat.PackInjective | xv6-malloclab/user/ummalloc.c:23 | two packed tags are equal exactly when sizes and bits are |
| BlockFormat.Max | xv6-malloclab/user/ummalloc.c:43-53 | max(x, y) is one of x, y and at least both |
| BlockFormat.AdjustSize | xv6-malloclab/user/ummalloc.c:93-96 | adjust_size(words) is a multiple of 8 bytes, 4 * words rounded up to an even word count (equal exactly for even words) |
| BlockFormat.Adjust | xv6-malloclab/user/ummalloc.c:183-193 | adjust(size) is 16 for size <= 8, otherwise a multiple of 8 with size + 8 <= asize < size + 16 |
| BlockFormat.AdjustSizeOfBlockSize | xv6-malloclab/user/ummalloc.c:218-219 | extend_heap(extendsize / WSIZE) grows by exactly extendsize bytes for an 8-aligned extendsize |
| HeapLayout.TagIsPack | xv6-malloclab/user/ummalloc.c:23-33 | a block's tag is PACK(size, alloc), and GET_SIZE/GET_ALLOC read its size and bit back |
| HeapLayout.NextBlock | xv6-malloclab/user/ummalloc.c:36-40 | on a well-formed heap HDRP(bp) of block k gives its size and bit (the epilogue: size 0, allocated), FTRP gives its footer with the same tag, NEXT_BLKP gives block k + 1 |
| HeapLayout.PrevBlock | xv6-malloclab/user/ummalloc.c:41 | PREV_BLKP of block k reads block k - 1's footer and lands on block k - 1 |
| HeapLayout.NextPrevInverse | xv6-malloclab/user/ummalloc.c:40-41 | NEXT_BLKP and PREV_BLKP undo each other on the blocks of a well-formed heap |
| HeapLayout.FirstFit | xv6-malloclab/user/ummalloc.c:153-164 | the first-fit index: the block there is free and holds asize, no block before it does |
| HeapLayout.FirstFitNone | xv6-malloclab/user/ummalloc.c:157-163 | first fit finds nothing exactly when no block fits, and never returns the prologue |
| HeapLayout.Split | xv6-malloclab/user/ummalloc.c:165-181 | place on u double words for au: two blocks (au allocated, u - au free) exactly when the remainder is at least one double word, else one allocated block of u; the span is kept |
| HeapLayout.PlaceBlocks | xv6-malloclab/user/ummalloc.c:165-181 | placing keeps the total span and every block before, and block i becomes allocated with at least au |
| HeapLayout.PlaceMem | xv6-malloclab/user/ummalloc.c:165-181 | the words place writes lay out exactly the split blocks from the old header word, each header equal to its footer |
| HeapLayout.PlaceMemFrame | xv6-malloclab/user/ummalloc.c:165-181 | place writes only inside the block it splits and not into the first au double words of payload |
| HeapLayout.PlaceNoAdjacentFree | xv6-malloclab/user/ummalloc.c:165-181 | placing in a free block keeps no two free blocks adjacent |
| HeapLayout.PlaceWf | xv6-malloclab/user/ummalloc.c:165-181 | placing keeps the heap well formed with the split block list |
| HeapLayout.WriteTags | xv6-malloclab/user/ummalloc.c:98-102 | init_block and the paired PUTs leave a block whose header and footer both hold its tag |
| HeapLayout.WriteTagsFrame | xv6-malloclab/user/ummalloc.c:98-102 | writing the tags changes only the header and footer words |
| HeapLayout.MergeRange | xv6-malloclab/user/ummalloc.c:56-91 | blocks lo..hi - 1 become one free block spanning them all; blocks outside are kept |
| HeapLayout.Coalesced | xv6-malloclab/user/ummalloc.c:56-91 | coalesce leaves a free block at the first merged index spanning block i and its free neighbours; the total span is kept |
| HeapLayout.CoalesceUnits | xv6-malloclab/user/ummalloc.c:70-83 | the merged size is the freed block's plus each free neighbour's (the size += lines of the three merging cases) |
| HeapLayout.CoalescedHw | xv6-malloclab/user/ummalloc.c:79-86 | the merged block starts where its first block did, so the returned pointer is PREV_BLKP(ptr) when the previous block was free |
| HeapLayout.CoalescedNoAdjacentFree | xv6-malloclab/user/ummalloc.c:56-91 | coalescing a free block whose only free contacts were its own neighbours leaves no two free blocks adjacent |
| HeapLayout.CoalesceMemCases | xv6-malloclab/user/ummalloc.c:64-88 | per case of the switch, the words coalesce writes are the tags of the merged block |
| HeapLayout.CoalesceMemFrame | xv6-malloclab/user/ummalloc.c:56-91 | coalesce writes only the merged block's header and footer |
| HeapLayout.CoalesceWf | xv6-malloclab/user/ummalloc.c:56-91 | coalescing keeps the heap well formed with the merged list |
| HeapLayout.FreeWf | xv6-malloclab/user/ummalloc.c:240-243 | marking a block free in both tags keeps the heap well formed |
| HeapLayout.FreeNoAdjacentFree | xv6-malloclab/user/ummalloc.c:238-245 | freeing and coalescing keeps no two free blocks adjacent |
| HeapLayout.ExtendNoAdjacentFree | xv6-malloclab/user/ummalloc.c:109-121 | appending a free block and coalescing it keeps no two free blocks adjacent |
| HeapLayout.GrowMem | xv6-malloclab/user/ummalloc.c:114-118 | after sbrk, init_block and set_new_epilogue the old epilogue word heads a free block of the new size and the last word is the new epilogue |
| HeapLayout.GrowMemFrame | xv6-malloclab/user/ummalloc.c:114-118 | growth keeps every word before the old epilogue |
| HeapLayout.GrowWf | xv6-malloclab/user/ummalloc.c:114-118 | growth keeps the heap well formed with a free block appended |
| HeapLayout.CopyWords | xv6-malloclab/user/ummalloc.c:326 | memcpy of n words: the destination run holds the source run, nothing else changes |
| HeapLayout.CopyWf | xv6-malloclab/user/ummalloc.c:326 | copying payload words of one block into another block's payload keeps the heap well formed |
| HeapOps.Grown | xv6-malloclab/user/ummalloc.c:109-121 | extend_heap on success: a well-formed heap 2u words longer, returning a free block of at least u double words |
| HeapOps.GrownShape | xv6-malloclab/user/ummalloc.c:109-121 | growth appends a free block at the old epilogue when the last block is allocated, and merges it into the last block when that is free; earlier blocks are kept |
| HeapOps.GrownNoAdjacentFree | xv6-malloclab/user/ummalloc.c:109-121 | growth keeps no two free blocks adjacent |
| HeapOps.Placed | xv6-malloclab/user/ummalloc.c:165-181 | place on block f, free or allocated: the heap stays well formed and the same size, and the block is allocated with at least asize at the same pointer |
| HeapOps.Allocate | xv6-malloclab/user/ummalloc.c:210-225 | first fit, else grow by max(asize, CHUNKSIZE) and place; a non-NULL pointer names an allocated block of at least asize; NULL leaves the heap unchanged |
| HeapOps.Malloc | xv6-malloclab/user/ummalloc.c:195-226 | mm_malloc: a non-NULL result is an allocated block holding size payload bytes |
| HeapOps.AllocateNull | xv6-malloclab/user/ummalloc.c:211-222 | the allocation step returns NULL exactly when no block fits and sbrk cannot grow the heap |
| HeapOps.MallocFirstFit | xv6-malloclab/user/ummalloc.c:210-215 | with a fit, mm_malloc places in the first fit and the heap does not grow |
| HeapOps.MallocGrows | xv6-malloclab/user/ummalloc.c:217-225 | without a fit, mm_malloc grows the heap by max(adjust(size), CHUNKSIZE) bytes and places in the block extend_heap returned |
| HeapOps.MallocNull | xv6-malloclab/user/ummalloc.c:201-222 | mm_malloc returns NULL exactly for size 0 or when nothing fits and growth fails, and then the heap is unchanged |
| HeapOps.MallocNoAdjacentFree | xv6-malloclab/user/ummalloc.c:195-226 | mm_malloc keeps no two free blocks adjacent |
| HeapOps.Free | xv6-malloclab/user/ummalloc.c:238-245 | mm_free: a well-formed heap in which the freed block lies in a free block |
| HeapOps.FreeMerges | xv6-malloclab/user/ummalloc.c:238-245 | the freed block merges with exactly its free neighbours: the merged block's position, size and span, with the blocks before it kept |
| HeapOps.FreeKeepsNoAdjacentFree | xv6-malloclab/user/ummalloc.c:238-245 | mm_free keeps no two free blocks adjacent |
| HeapOps.FreeKeeps | xv6-malloclab/user/ummalloc.c:238-245 | mm_free leaves every other allocated block, and all its words, where it was |
| HeapOps.AllocateKeeps | xv6-malloclab/user/ummalloc.c:210-225 | the allocation step leaves every other allocated block, and all its words, where it was |
| HeapOps.MoveMem | xv6-malloclab/user/ummalloc.c:326 | the memcpy of handle_size_greater: the new payload starts with the old block's whole payload |
| HeapOps.MoveBlock | xv6-malloclab/user/ummalloc.c:325-328 | after the copy and mm_free(ptr), the new block is unchanged and its pointer is returned |
| HeapOps.Relocate | xv6-malloclab/user/ummalloc.c:316-329 | relocation gives an allocated block of at least asize, or NULL with the heap unchanged |
| HeapOps.Absorb | xv6-malloclab/user/ummalloc.c:312-315 | in-place growth over a free successor: same pointer and index, allocated, at least asize |
| HeapOps.Expand | xv6-malloclab/user/ummalloc.c:307-330 | handle_size_greater: an allocated block of at least asize, or NULL with the heap unchanged |
| HeapOps.Realloc | xv6-malloclab/user/ummalloc.c:254-306 | mm_realloc on a block: a non-NULL result is an allocated block holding size payload bytes, and the heap stays well formed |
| HeapOps.MoveBlockPayload | xv6-malloclab/user/ummalloc.c:326-327 | after the move and the free, the new block's payload holds the old payload |
| HeapOps.RelocateFrees | xv6-malloclab/user/ummalloc.c:326-328 | a relocated block gets a new address and the old block lies inside a free block |
| HeapOps.ReallocKeepsPayload | xv6-malloclab/user/ummalloc.c:254-330 | mm_realloc keeps the payload up to the lesser of the old and new block sizes, in every case |
| HeapOps.ReallocInPlace | xv6-malloclab/user/ummalloc.c:275-296 | equal size keeps the heap; smaller places in the block; greater with a free successor that makes room merges the pair and places; always the same pointer and heap size |
| HeapOps.ReallocNull | xv6-malloclab/user/ummalloc.c:262-330 | for size > 0 mm_realloc returns NULL exactly when the block must move, nothing fits and growth fails, and then p and the heap are untouched |
| HeapOps.ReallocMoves | xv6-malloclab/user/ummalloc.c:316-329 | a moved block is the one the allocation step returns, at a new address, and the old block lies inside a free block |
| HeapOps.PlacedKeeps | xv6-malloclab/user/ummalloc.c:293-296 | place in block i (the shrinking case) leaves every other block, with all its words, at its address, and it is not the block returned |
| HeapOps.AbsorbIndex | xv6-malloclab/user/ummalloc.c:312-314 | after merging blocks i and i + 1 and placing, every other block keeps its address: blocks before stay, later ones shift by the merge and the split |
| HeapOps.AbsorbKeepsWords | xv6-malloclab/user/ummalloc.c:312-314 | the in-place growth writes no word of any block but i and i + 1 |
| HeapOps.AbsorbKeepsBlock | xv6-malloclab/user/ummalloc.c:312-314 | the in-place growth keeps every block but i and i + 1 at its address, and it is not the block returned |
| HeapOps.MoveMemKeeps | xv6-malloclab/user/ummalloc.c:326 | the memcpy writes only into the new block: every other block keeps its words |
| HeapOps.RelocateKeeps | xv6-malloclab/user/ummalloc.c:316-329 | allocating, copying and freeing the old block leaves every other allocated block, with all its words, at its address |
| HeapOps.ReallocKeeps | xv6-malloclab/user/ummalloc.c:254-330 | a successful mm_realloc of block i leaves every other allocated block, with all its words, at its address, in every case |
| HeapOps.ReallocZero | xv6-malloclab/user/ummalloc.c:266-270 | mm_realloc(p, 0) returns NULL and p's block lies inside a free block |
| Ummalloc.WalkStep | xv6-malloclab/user/ummalloc.c:157-159 | find_fit's loop test reads a nonzero size exactly at a block, never at the epilogue; it reads the block's bit and size, and NEXT_BLKP steps to the next block |
| Ummalloc.CoalesceReads | xv6-malloclab/user/ummalloc.c:58-60 | coalesce's first reads give the neighbours' allocated bits (the epilogue's past the last block) and the block's size |
| Ummalloc.CoalesceWithNext | xv6-malloclab/user/ummalloc.c:69-73 | case 2: the header and then the footer found through it get the merged tag |
| Ummalloc.CoalesceWithPrev | xv6-malloclab/user/ummalloc.c:75-80 | case 1: the footer and the previous block's header get the merged tag, and PREV_BLKP(ptr) read after the writes is the merged (previous) block's payload, where the pointer moves |
| Ummalloc.CoalesceWithBoth | xv6-malloclab/user/ummalloc.c:82-87 | case 0: the previous header and the next footer get the merged tag, and PREV_BLKP(ptr) read after the writes is the merged (previous) block's payload, where the pointer moves |
| Ummalloc.Heap.constructor | xv6-malloclab/user/ummalloc.c:55 | before mm_init the heap is empty and heap_listp is NULL |
| Ummalloc.Heap.Put | xv6-malloclab/user/ummalloc.c:27 | PUT writes exactly one word |
| Ummalloc.Heap.Sbrk | xv6-malloclab/user/ummalloc.c:114 | sbrk returns the old break and appends n / 4 fresh words, or returns -1 and changes nothing when the capacity would be passed |
| Ummalloc.Heap.InitBlock | xv6-malloclab/user/ummalloc.c:98-102 | init_block writes the free tags of the block |
| Ummalloc.Heap.SetNewEpilogue | xv6-malloclab/user/ummalloc.c:104-107 | set_new_epilogue writes PACK(0, 1) into the header after the block, and only there |
| Ummalloc.Heap.Place | xv6-malloclab/user/ummalloc.c:165-181 | place leaves exactly PlaceMem: the split iff the remainder is at least one double word, header equal to footer |
| Ummalloc.Heap.MergeNext | xv6-malloclab/user/ummalloc.c:69-73 | case 2 of coalesce leaves CoalesceMem; the merged block starts at ptr, which Coalesce then returns |
| Ummalloc.Heap.MergePrev | xv6-malloclab/user/ummalloc.c:75-80 | case 1 of coalesce leaves CoalesceMem and returns the previous block's pointer |
| Ummalloc.Heap.MergeBoth | xv6-malloclab/user/ummalloc.c:82-87 | case 0 of coalesce leaves CoalesceMem and returns the previous block's pointer |
| Ummalloc.Heap.Coalesce | xv6-malloclab/user/ummalloc.c:56-91 | coalesce leaves exactly the merged list and words, keeps the heap valid, and returns the merged block's pointer |
| Ummalloc.Heap.ExtendHeap | xv6-malloclab/user/ummalloc.c:109-121 | extend_heap returns NULL with nothing changed when sbrk fails; otherwise the heap grows by adjust_size(words) bytes, gets a new epilogue, is coalesced, and the merged free block's pointer is returned |
| Ummalloc.Heap.Init | xv6-malloclab/user/ummalloc.c:126-137 | init writes padding, prologue and epilogue, sets heap_listp to the prologue payload, and returns 1 exactly when the first CHUNKSIZE growth succeeds (one free block of 4096 bytes), else 0 with the empty heap |
| Ummalloc.Heap.MmInit | xv6-malloclab/user/ummalloc.c:139-147 | mm_init returns 0 exactly when both sbrk calls succeed, else -1 |
| Ummalloc.Heap.FindFit | xv6-malloclab/user/ummalloc.c:153-164 | find_fit returns the first fit's pointer, or 0 exactly when no block fits, and changes nothing |
| Ummalloc.Heap.MmMalloc | xv6-malloclab/user/ummalloc.c:195-226 | mm_malloc leaves exactly the state of Malloc and returns its pointer |
| Ummalloc.Heap.AllocateBlock | xv6-malloclab/user/ummalloc.c:210-225 | find_fit and place, else extend_heap(max(asize, CHUNKSIZE) / WSIZE) and place; leaves exactly the state of Allocate |
| Ummalloc.Heap.MmFree | xv6-malloclab/user/ummalloc.c:238-245 | mm_free leaves exactly the state of Free |
| Ummalloc.Heap.Memcpy | xv6-malloclab/user/ummalloc.c:326 | memcpy of n bytes leaves exactly CopyWords |
| Ummalloc.Heap.GrowInPlace | xv6-malloclab/user/ummalloc.c:312-315 | the header is rewritten as one free block over both, then placed: exactly the state of Absorb |
| Ummalloc.Heap.MoveAndFree | xv6-malloclab/user/ummalloc.c:326-328 | copy the payload, then mm_free(ptr): exactly the state of MoveBlock |
| Ummalloc.Heap.HandleSizeGreater | xv6-malloclab/user/ummalloc.c:307-330 | handle_size_greater leaves exactly the state of Expand and returns its pointer |
| Ummalloc.Heap.MmRealloc | xv6-malloclab/user/ummalloc.c:254-306 | mm_realloc is mm_malloc for NULL and otherwise leaves exactly the state of Realloc, keeping the heap valid |

## Left out

- sbrk is a capacity `limit` on the total heap bytes. It either hands out zeroed words or fails with -1 and no change. The real system call and what other code does with the break are outside the model.
- Memory is a sequence of words. Byte-level access is not modelled: every GET and PUT is word aligned.
- memcpy is a word-by-word copy. The model requires the two ranges to be disjoint and the byte count to be a multiple of 4. Both always hold in handle_size_greater.
- Sizes are unbounded integers, so the model and the C code part ways for requests of about 2^31 bytes and more. Two C effects are not modelled:
  - The 32-bit `uint` wrap-around in `adjust`, `size += …` and `sizesum`, near 2^32 bytes.
  - The signed `int max(int, int)` (ummalloc.c:43-53), from 2^31 bytes on. mm_malloc and handle_size_greater pass it an adjusted size of 2^31 or more, which becomes a negative int, so `max` returns CHUNKSIZE. extend_heap then grows the heap by only 4096 bytes, and `place` underflows its remainder and writes past the heap. The model's `Max` compares the unbounded sizes, asks sbrk for the whole request, and returns NULL when that exceeds the capacity (`MallocNull`).
- Pointers passed by a caller are assumed valid: mm_free and mm_realloc require the payload pointer of an allocated block. The C code does not check this, and behaves undefined otherwise.
- mm_init is modelled only as the first call, on an empty heap. A second call would start a new heap with sbrk, after the old one.
- Ummalloc.Heap.ExtendHeap: requires words >= 1. Every caller passes at least 1024, and extend_heap(0) would write a zero-sized block.
- HeapLayout.Zeros: the fresh words sbrk hands out are taken to be zero. Sbrk's contract gives them as zeros, through the body of Zeros, but no other contract uses their value.
- The ALIGN and SIZE_T_SIZE macros are not used by any modelled function.
- The unreachable `default` case of mm_realloc's switch is not modelled: caseType is always one of its three constants.
- The code shared by mm_malloc and the relocating branch of handle_size_greater is modelled once, as Heap.AllocateBlock and HeapOps.Allocate. Both callers run it after their own size step.
- set_new_epilogue keeps its unused size parameter.
- mm_realloc does not keep free blocks apart, and the model makes no such claim. In the shrinking case, place splits off a free remainder and does not coalesce it with a free successor.
- The following helpers have no rows of their own. Each stands for a macro or an expression of the source, and the rows above state what they are used for:
  - `Heap.InitTags`, `Heap.PlaceIn` and `Heap.CopyPayload` are steps inside place, mm_malloc and handle_size_greater.
  - `BlockFormat.Get` is GET(p), the word at byte offset p (ummalloc.c:26).
  - `BlockFormat.Hdrp` is HDRP(bp), which is bp - 4 (ummalloc.c:36).
  - `BlockFormat.Ftrp` is FTRP(bp), which is bp + GET_SIZE(HDRP(bp)) - 8 (ummalloc.c:37).
  - `BlockFormat.NextBlkp` is NEXT_BLKP(bp), which is bp + GET_SIZE(bp - 4) (ummalloc.c:40).
  - `BlockFormat.PrevBlkp` is PREV_BLKP(bp), which is bp - GET_SIZE(bp - 8) (ummalloc.c:41).
  - `HeapLayout.Fits` is find_fit's test (ummalloc.c:159): the block is free and at least asize bytes.
  - `HeapLayout.CoalesceLo` and `HeapLayout.CoalesceHi` are the bounds of the block range that coalesce's switch merges (ummalloc.c:58-62).
  - `HeapLayout.CoalesceMem` is the words coalesce writes (ummalloc.c:64-88): the merged block's tags.
  - `HeapOps.CanAbsorb` is handle_size_greater's condition (ummalloc.c:312): the successor is free and the two blocks together hold asize.
