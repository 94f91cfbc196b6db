/** The allocator: a heap of 32-bit words obtained from sbrk, an implicit
    list of blocks with boundary tags, first-fit search, splitting on
    placement and immediate coalescing on free.

    Heap holds the allocator's state: the words of the heap, the static
    heap_listp, and the sbrk capacity. The ghost field blocks is the list of
    blocks the words lay out (HeapLayout.Wf); every method keeps it up to
    date and states its new value. */
module Ummalloc {
  import opened BlockFormat
  import opened HeapLayout
  import opened HeapOps

  /** mm_realloc's three cases: the adjusted size equals, is less than,
      or is greater than the block's size. */
  const SIZE_EQUAL := 1
  const SIZE_LESS := 2
  const SIZE_GREATER := 3

  // ---------------------------------------------------------------------
  // What coalesce reads and writes, case by case

  /** What find_fit reads at Off(bs, k): a nonzero size exactly for a
      block (the epilogue has size 0), and for a block its allocated bit,
      its size and, through NEXT_BLKP, the next block's payload. */
  lemma WalkStep(mem: seq<nat>, bs: seq<Block>, k: nat)
    requires Wf(mem, bs) && k <= |bs|
    ensures InHeap(mem, Hdrp(Off(bs, k)))
    ensures GetSize(Get(mem, Hdrp(Off(bs, k)))) > 0 <==> k < |bs|
    ensures k < |bs| ==>
      && GetAlloc(Get(mem, Hdrp(Off(bs, k)))) == Bit(bs[k].alloc)
      && GetSize(Get(mem, Hdrp(Off(bs, k)))) == Size(bs[k])
      && NextBlkp(mem, Off(bs, k)) == Off(bs, k + 1)
  {
    WfBlock(mem, bs, k);
    NextBlock(mem, bs, k);
  }

  /** What coalesce(ptr) reads first on a well-formed heap, for ptr the
      payload of block i: its neighbours' allocated bits (past the last
      block, the epilogue's) and its own size. */
  lemma CoalesceReads(mem: seq<nat>, bs: seq<Block>, i: nat)
    requires Wf(mem, bs) && 1 <= i < |bs|
    ensures InHeap(mem, Hdrp(Off(bs, i))) && InHeap(mem, Off(bs, i) - 8)
    ensures PrevBlkp(mem, Off(bs, i)) == Off(bs, i - 1)
    ensures NextBlkp(mem, Off(bs, i)) == Off(bs, i + 1)
    ensures InHeap(mem, Hdrp(Off(bs, i - 1))) && InHeap(mem, Hdrp(Off(bs, i + 1)))
    ensures InHeap(mem, Ftrp(mem, Off(bs, i - 1)))
    ensures GetAlloc(Get(mem, Ftrp(mem, Off(bs, i - 1)))) == Bit(bs[i - 1].alloc)
    ensures GetAlloc(Get(mem, Hdrp(Off(bs, i + 1)))) == if i + 1 < |bs| then Bit(bs[i + 1].alloc) else 1
    ensures GetSize(Get(mem, Hdrp(Off(bs, i)))) == Size(bs[i])
  {
    PrevBlock(mem, bs, i);
    NextBlock(mem, bs, i - 1);
    NextBlock(mem, bs, i);
    NextBlock(mem, bs, i + 1);
    TagIsPack(bs[i - 1]);
  }

  /** The sizes coalesce reads from the previous block: through its footer
      and through its header. */
  lemma CoalesceReadsPrev(mem: seq<nat>, bs: seq<Block>, i: nat)
    requires Wf(mem, bs) && 1 <= i < |bs|
    ensures InHeap(mem, Hdrp(Off(bs, i - 1))) && InHeap(mem, Ftrp(mem, Off(bs, i - 1)))
    ensures GetSize(Get(mem, Ftrp(mem, Off(bs, i - 1)))) == Size(bs[i - 1])
    ensures GetSize(Get(mem, Hdrp(Off(bs, i - 1)))) == Size(bs[i - 1])
  {
    NextBlock(mem, bs, i - 1);
    TagIsPack(bs[i - 1]);
  }

  /** The sizes coalesce reads from the next block (not the epilogue):
      through its header and through its footer. */
  lemma CoalesceReadsNext(mem: seq<nat>, bs: seq<Block>, i: nat)
    requires Wf(mem, bs) && 1 <= i && i + 1 < |bs|
    ensures InHeap(mem, Hdrp(Off(bs, i + 1))) && InHeap(mem, Ftrp(mem, Off(bs, i + 1)))
    ensures GetSize(Get(mem, Hdrp(Off(bs, i + 1)))) == Size(bs[i + 1])
    ensures GetSize(Get(mem, Ftrp(mem, Off(bs, i + 1)))) == Size(bs[i + 1])
  {
    NextBlock(mem, bs, i + 1);
    TagIsPack(bs[i + 1]);
  }

  /** Case 2 of coalesce (only the next block free), on the words: with
      the free block b at header word h followed by the free block b1, the
      header of ptr and then the footer FTRP finds through it get the tag
      of the merged block. */
  lemma CoalesceWithNext(mem: seq<nat>, h: nat, b: Block, b1: Block, ptr: int, size: nat)
    requires 1 <= h && 1 <= b.units && 1 <= b1.units && !b.alloc && !b1.alloc
    requires h + 2 * b.units + 2 * b1.units <= |mem|
    requires ptr == 4 * h + 4 && size == Size(b) + Size(b1)
    ensures && InHeap(mem, Hdrp(ptr))
      && var m1 := mem[Hdrp(ptr) / 4 := Pack(size, 0)];
      && InHeap(m1, Hdrp(ptr)) && InHeap(m1, Ftrp(m1, ptr))
      && m1[Ftrp(m1, ptr) / 4 := Pack(size, 0)] == WriteTags(mem, h, Block(b.units + b1.units, false))
  {
    var m := Block(b.units + b1.units, false);
    TagIsPack(m);
    assert Pack(size, 0) == Tag(m);
    assert Hdrp(ptr) / 4 == h;
    var m1 := mem[h := Tag(m)];
    assert Ftrp(m1, ptr) / 4 == h + 2 * m.units - 1;
  }

  /** Case 1 of coalesce (only the previous block free), on the words: with
      the free block b0 at header word h0 followed by the free block b, the
      footer of ptr and then the header of the previous block get the tag
      of the merged block. */
  lemma CoalesceWithPrev(mem: seq<nat>, h0: nat, b0: Block, b: Block, ptr: int, size: nat)
    requires 1 <= h0 && 1 <= b0.units && 1 <= b.units && !b0.alloc && !b.alloc
    requires h0 + 2 * b0.units + 2 * b.units <= |mem|
    requires mem[h0 + 2 * b0.units - 1] == Tag(b0) && mem[h0 + 2 * b0.units] == Tag(b)
    requires ptr == 4 * (h0 + 2 * b0.units) + 4 && size == Size(b) + Size(b0)
    ensures && InHeap(mem, Hdrp(ptr)) && InHeap(mem, Ftrp(mem, ptr))
      && var m1 := mem[Ftrp(mem, ptr) / 4 := Pack(size, 0)];
      && InHeap(m1, ptr - 8) && InHeap(m1, Hdrp(PrevBlkp(m1, ptr)))
      && var m2 := m1[Hdrp(PrevBlkp(m1, ptr)) / 4 := Pack(size, 0)];
      && m2 == WriteTags(mem, h0, Block(b0.units + b.units, false))
      && InHeap(m2, ptr - 8) && PrevBlkp(m2, ptr) == 4 * h0 + 4
  {
    var h := h0 + 2 * b0.units;
    var m := Block(b0.units + b.units, false);
    var f := h0 + 2 * m.units - 1;
    TagIsPack(m);
    TagIsPack(b);
    TagIsPack(b0);
    assert Pack(size, 0) == Tag(m);
    assert Hdrp(ptr) / 4 == h;
    assert Ftrp(mem, ptr) / 4 == f;
    var m1 := mem[f := Tag(m)];
    assert (ptr - 8) / 4 == h - 1 && m1[h - 1] == mem[h - 1];
    assert PrevBlkp(m1, ptr) == 4 * h0 + 4 && Hdrp(PrevBlkp(m1, ptr)) / 4 == h0;
    WriteTagsSwap(mem, h0, m);
    PrevAfterMerge(mem, h0, b0, m, ptr, WriteTags(mem, h0, m));
  }

  /** The two writes of case 0 of coalesce: with the free blocks b0, b and
      b1 one after the other from header word h0, the header of the
      previous block and the footer of the next get the merged tag. */
  lemma CoalesceBothWrites(mem: seq<nat>, h0: nat, b0: Block, b: Block, b1: Block, ptr: int, size: nat)
    requires 1 <= h0 && 1 <= b0.units && 1 <= b.units && 1 <= b1.units
    requires !b0.alloc && !b.alloc && !b1.alloc
    requires h0 + 2 * b0.units + 2 * b.units + 2 * b1.units <= |mem|
    requires mem[h0 + 2 * b0.units - 1] == Tag(b0) && mem[h0 + 2 * b0.units] == Tag(b)
    requires mem[h0 + 2 * b0.units + 2 * b.units] == Tag(b1)
    requires ptr == 4 * (h0 + 2 * b0.units) + 4 && size == Size(b) + Size(b0) + Size(b1)
    ensures && InHeap(mem, ptr - 8) && InHeap(mem, Hdrp(PrevBlkp(mem, ptr)))
      && var m1 := mem[Hdrp(PrevBlkp(mem, ptr)) / 4 := Pack(size, 0)];
      && InHeap(m1, Hdrp(ptr)) && InHeap(m1, Hdrp(NextBlkp(m1, ptr)))
      && InHeap(m1, Ftrp(m1, NextBlkp(m1, ptr)))
      && var m2 := m1[Ftrp(m1, NextBlkp(m1, ptr)) / 4 := Pack(size, 0)];
      && m2 == WriteTags(mem, h0, Block(b0.units + b.units + b1.units, false))
  {
    var h := h0 + 2 * b0.units;
    var h2 := h + 2 * b.units;
    var m := Block(b0.units + b.units + b1.units, false);
    var f := h0 + 2 * m.units - 1;
    TagIsPack(m);
    TagIsPack(b);
    TagIsPack(b0);
    TagIsPack(b1);
    assert Pack(size, 0) == Tag(m);
    assert (ptr - 8) / 4 == h - 1;
    assert PrevBlkp(mem, ptr) == 4 * h0 + 4 && Hdrp(PrevBlkp(mem, ptr)) / 4 == h0;
    var m1 := mem[h0 := Tag(m)];
    assert Hdrp(ptr) / 4 == h && m1[h] == mem[h];
    assert NextBlkp(m1, ptr) == 4 * h2 + 4 && Hdrp(NextBlkp(m1, ptr)) / 4 == h2 && m1[h2] == mem[h2];
    assert Ftrp(m1, NextBlkp(m1, ptr)) / 4 == f;
  }

  /** Case 0 of coalesce (both neighbours free), on the words: with the
      free blocks b0, b and b1 one after the other from header word h0, the
      header of the previous block and the footer of the next get the tag
      of the merged block, and PREV_BLKP from ptr then gives the merged
      block's payload. */
  lemma CoalesceWithBoth(mem: seq<nat>, h0: nat, b0: Block, b: Block, b1: Block, ptr: int, size: nat)
    requires 1 <= h0 && 1 <= b0.units && 1 <= b.units && 1 <= b1.units
    requires !b0.alloc && !b.alloc && !b1.alloc
    requires h0 + 2 * b0.units + 2 * b.units + 2 * b1.units <= |mem|
    requires mem[h0 + 2 * b0.units - 1] == Tag(b0) && mem[h0 + 2 * b0.units] == Tag(b)
    requires mem[h0 + 2 * b0.units + 2 * b.units] == Tag(b1)
    requires ptr == 4 * (h0 + 2 * b0.units) + 4 && size == Size(b) + Size(b0) + Size(b1)
    ensures && InHeap(mem, ptr - 8) && InHeap(mem, Hdrp(PrevBlkp(mem, ptr)))
      && var m1 := mem[Hdrp(PrevBlkp(mem, ptr)) / 4 := Pack(size, 0)];
      && InHeap(m1, Hdrp(ptr)) && InHeap(m1, Hdrp(NextBlkp(m1, ptr)))
      && InHeap(m1, Ftrp(m1, NextBlkp(m1, ptr)))
      && var m2 := m1[Ftrp(m1, NextBlkp(m1, ptr)) / 4 := Pack(size, 0)];
      && m2 == WriteTags(mem, h0, Block(b0.units + b.units + b1.units, false))
      && InHeap(m2, ptr - 8) && PrevBlkp(m2, ptr) == 4 * h0 + 4
  {
    CoalesceBothWrites(mem, h0, b0, b, b1, ptr, size);
    var m := Block(b0.units + b.units + b1.units, false);
    PrevAfterMerge(mem, h0, b0, m, ptr, WriteTags(mem, h0, m));
  }

  /** After a merge that starts at the free block b0 (header word h0) and
      reaches past its end, PREV_BLKP from the payload just after b0 still
      reads b0's old footer and lands on the merged block. */
  lemma PrevAfterMerge(mem: seq<nat>, h0: nat, b0: Block, m: Block, ptr: int, mem2: seq<nat>)
    requires 1 <= h0 && 1 <= b0.units < m.units && h0 + 2 * m.units <= |mem|
    requires mem[h0 + 2 * b0.units - 1] == Tag(b0)
    requires ptr == 4 * (h0 + 2 * b0.units) + 4
    requires mem2 == WriteTags(mem, h0, m)
    ensures InHeap(mem2, ptr - 8) && PrevBlkp(mem2, ptr) == 4 * h0 + 4
  {
    var h := h0 + 2 * b0.units;
    TagIsPack(b0);
    WriteTagsFrame(mem, h0, m);
    assert (ptr - 8) / 4 == h - 1;
    assert mem2[h - 1] == mem[h - 1];
  }

  /** coalesce's writes in case 2, on a well-formed heap: the result is
      CoalesceMem. */
  lemma CoalesceNextCase(mem: seq<nat>, bs: seq<Block>, i: nat, ptr: int, size: nat)
    requires Wf(mem, bs) && 1 <= i && i + 1 < |bs| && bs[i - 1].alloc && !bs[i].alloc && !bs[i + 1].alloc
    requires ptr == Off(bs, i) && size == Size(bs[i]) + Size(bs[i + 1])
    ensures 1 <= bs[i].units && Hw(bs, |bs|) <= |mem|
    ensures && InHeap(mem, Hdrp(ptr))
      && var m1 := mem[Hdrp(ptr) / 4 := Pack(size, 0)];
      && InHeap(m1, Hdrp(ptr)) && InHeap(m1, Ftrp(m1, ptr))
      && m1[Ftrp(m1, ptr) / 4 := Pack(size, 0)] == CoalesceMem(mem, bs, i)
  {
    WfBlock(mem, bs, i);
    WfBlock(mem, bs, i + 1);
    WfBlock(mem, bs, |bs|);
    HwMonotone(bs, i + 1, |bs|);
    CoalesceWithNext(mem, Hw(bs, i), bs[i], bs[i + 1], ptr, size);
    CoalesceMemCases(mem, bs, i);
  }

  /** coalesce's writes in case 1, on a well-formed heap: the result is
      CoalesceMem, and PREV_BLKP then gives the merged block. */
  lemma CoalescePrevCase(mem: seq<nat>, bs: seq<Block>, i: nat, ptr: int, size: nat)
    requires Wf(mem, bs) && 1 < i < |bs| && !bs[i - 1].alloc && !bs[i].alloc
    requires i + 1 < |bs| ==> bs[i + 1].alloc
    requires ptr == Off(bs, i) && size == Size(bs[i]) + Size(bs[i - 1])
    ensures 1 <= bs[i].units && Hw(bs, |bs|) <= |mem|
    ensures && InHeap(mem, Hdrp(ptr)) && InHeap(mem, Ftrp(mem, ptr))
      && var m1 := mem[Ftrp(mem, ptr) / 4 := Pack(size, 0)];
      && InHeap(m1, ptr - 8) && InHeap(m1, Hdrp(PrevBlkp(m1, ptr)))
      && var m2 := m1[Hdrp(PrevBlkp(m1, ptr)) / 4 := Pack(size, 0)];
      && m2 == CoalesceMem(mem, bs, i)
      && InHeap(m2, ptr - 8) && PrevBlkp(m2, ptr) == Off(bs, i - 1)
  {
    WfBlock(mem, bs, i - 1);
    WfBlock(mem, bs, i);
    WfBlock(mem, bs, |bs|);
    HwMonotone(bs, i, |bs|);
    var h0 := Hw(bs, i - 1);
    var m := Block(bs[i - 1].units + bs[i].units, false);
    CoalesceWithPrev(mem, h0, bs[i - 1], bs[i], ptr, size);
    CoalesceMemCases(mem, bs, i);
    PrevAfterMerge(mem, h0, bs[i - 1], m, ptr, CoalesceMem(mem, bs, i));
  }

  /** coalesce's writes in case 0, on a well-formed heap: the result is
      CoalesceMem, and PREV_BLKP then gives the merged block. */
  lemma CoalesceBothCase(mem: seq<nat>, bs: seq<Block>, i: nat, ptr: int, size: nat)
    requires Wf(mem, bs) && 1 < i && i + 1 < |bs| && !bs[i - 1].alloc && !bs[i].alloc && !bs[i + 1].alloc
    requires ptr == Off(bs, i) && size == Size(bs[i]) + Size(bs[i - 1]) + Size(bs[i + 1])
    ensures 1 <= bs[i].units && Hw(bs, |bs|) <= |mem|
    ensures && InHeap(mem, ptr - 8) && InHeap(mem, Hdrp(PrevBlkp(mem, ptr)))
      && var m1 := mem[Hdrp(PrevBlkp(mem, ptr)) / 4 := Pack(size, 0)];
      && InHeap(m1, Hdrp(ptr)) && InHeap(m1, Hdrp(NextBlkp(m1, ptr)))
      && InHeap(m1, Ftrp(m1, NextBlkp(m1, ptr)))
      && var m2 := m1[Ftrp(m1, NextBlkp(m1, ptr)) / 4 := Pack(size, 0)];
      && m2 == CoalesceMem(mem, bs, i)
      && InHeap(m2, ptr - 8) && PrevBlkp(m2, ptr) == Off(bs, i - 1)
  {
    WfBlock(mem, bs, i - 1);
    WfBlock(mem, bs, i);
    WfBlock(mem, bs, i + 1);
    WfBlock(mem, bs, |bs|);
    HwMonotone(bs, i + 1, |bs|);
    var h0 := Hw(bs, i - 1);
    var m := Block(bs[i - 1].units + bs[i].units + bs[i + 1].units, false);
    CoalesceWithBoth(mem, h0, bs[i - 1], bs[i], bs[i + 1], ptr, size);
    CoalesceMemCases(mem, bs, i);
    PrevAfterMerge(mem, h0, bs[i - 1], m, ptr, CoalesceMem(mem, bs, i));
  }

  class Heap {
    /** The words of the heap; the word at byte offset p is mem[p / 4]. */
    var mem: seq<nat>
    /** heap_listp: the prologue's payload pointer once the heap is set up. */
    var heapListp: int
    /** The most bytes sbrk can hand out in all. */
    const limit: nat
    /** The blocks the words lay out, prologue first. */
    ghost var blocks: seq<Block>

    /** The heap is set up and well formed, and within what sbrk gave. */
    ghost predicate Valid()
      reads this
    {
      && Wf(mem, blocks)
      && heapListp == 8
      && 4 * |mem| <= limit
    }

    /** An allocator before mm_init: no heap yet, heap_listp is NULL. */
    constructor (limit: nat)
      ensures this.limit == limit
      ensures mem == [] && heapListp == 0 && blocks == []
    {
      this.limit := limit;
      mem := [];
      heapListp := 0;
      blocks := [];
    }

    /** PUT(p, val): write one word. */
    method Put(p: int, val: nat)
      requires p % 4 == 0 && 0 <= p < 4 * |mem|
      modifies `mem
      ensures mem == old(mem)[p / 4 := val]
    {
      mem := mem[p / 4 := val];
    }

    /** sbrk(n): grow the heap by n bytes and return the old break, or -1
        (and change nothing) when that would pass the limit. */
    method Sbrk(n: nat) returns (brk: int)
      requires n % 4 == 0
      modifies `mem
      ensures 4 * old(|mem|) + n <= limit ==> brk == 4 * old(|mem|) && mem == old(mem) + Zeros(n / 4)
      ensures 4 * old(|mem|) + n > limit ==> brk == -1 && mem == old(mem)
    {
      if 4 * |mem| + n > limit {
        return -1;
      }
      brk := 4 * |mem|;
      mem := mem + Zeros(n / 4);
    }

    /** init_block(bp, size): free tags for a block of size bytes at bp. */
    method InitBlock(bp: int, size: nat, ghost h: nat, ghost u: nat)
      requires bp == 4 * h + 4 && size == 8 * u
      requires 1 <= h && 1 <= u && h + 2 * u <= |mem|
      modifies `mem
      ensures mem == WriteTags(old(mem), h, Block(u, false))
    {
      Put(Hdrp(bp), Pack(size, 0));
      PackRoundTrip(size, 0);
      Put(Ftrp(mem, bp), Pack(size, 0));
    }

    /** set_new_epilogue(bp, size): a size-0 allocated header after the
        block at bp (the size argument is not used, as in the source). */
    method SetNewEpilogue(bp: int, size: nat, ghost h: nat, ghost u: nat)
      requires bp == 4 * h + 4 && h < |mem| && GetSize(mem[h]) == 8 * u
      requires h + 2 * u < |mem|
      modifies `mem
      ensures mem == old(mem)[h + 2 * u := Pack(0, 1)]
    {
      assert Get(mem, Hdrp(bp)) == mem[h];
      var nb := NextBlkp(mem, bp);
      assert nb == 4 * (h + 2 * u) + 4;
      assert Hdrp(nb) / 4 == h + 2 * u;
      Put(Hdrp(nb), Pack(0, 1));
    }

    /** place(bp, asize) on the block whose header is word h and whose
        header gives its size, 8 * u bytes: the first asize bytes become an
        allocated block and, when at least a double word is left over, the
        rest a free block after it; otherwise the whole block is marked
        allocated. */
    method Place(bp: int, asize: nat, ghost h: nat, ghost u: nat)
      requires bp == 4 * h + 4 && 1 <= h && 1 <= u && h + 2 * u <= |mem| && GetSize(mem[h]) == 8 * u
      requires asize % 8 == 0 && 8 <= asize <= 8 * u
      modifies `mem
      ensures mem == PlaceMem(old(mem), h, u, asize / 8)
    {
      assert Hdrp(bp) / 4 == h;
      var size := GetSize(Get(mem, Hdrp(bp)));
      var au := asize / 8;
      if size - asize >= 8 {
        // LEFT >= 2 * WSIZE: split off the remainder
        InitTags(bp, asize, 1, h, au);
        var next := NextBlkp(mem, bp);
        assert next == 4 * (h + 2 * au) + 4;
        InitTags(next, size - asize, 0, h + 2 * au, u - au);
      } else {
        InitTags(bp, size, 1, h, u);
      }
    }

    /** The header and then the footer of the block at bp (header word h,
        u double words) get PACK(size, alloc): the paired PUTs of place. */
    method InitTags(bp: int, size: nat, alloc: nat, ghost h: nat, ghost u: nat)
      requires bp == 4 * h + 4 && size == 8 * u && alloc <= 1
      requires 1 <= h && 1 <= u && h + 2 * u <= |mem|
      modifies `mem
      ensures mem == WriteTags(old(mem), h, Block(u, alloc == 1))
    {
      TagIsPack(Block(u, alloc == 1));
      Put(Hdrp(bp), Pack(size, alloc));
      assert Hdrp(bp) / 4 == h && mem[h] == Tag(Block(u, alloc == 1));
      Put(Ftrp(mem, bp), Pack(size, alloc));
    }

    /** Case 2 of coalesce: only the next block is free; the header of ptr
        and then the footer found through it get the merged size. */
    method MergeNext(ptr: int, size0: nat, ghost i: nat)
      requires Wf(mem, blocks) && 1 <= i && i + 1 < |blocks|
      requires blocks[i - 1].alloc && !blocks[i].alloc && !blocks[i + 1].alloc
      requires ptr == Off(blocks, i) && size0 == Size(blocks[i])
      modifies `mem
      ensures 1 <= blocks[i].units && Hw(blocks, |blocks|) <= |old(mem)|
      ensures mem == CoalesceMem(old(mem), blocks, i)
    {
      CoalesceReads(mem, blocks, i);
      CoalesceReadsNext(mem, blocks, i);
      var size := size0 + GetSize(Get(mem, Hdrp(NextBlkp(mem, ptr))));
      CoalesceNextCase(mem, blocks, i, ptr, size);
      Put(Hdrp(ptr), Pack(size, 0));
      Put(Ftrp(mem, ptr), Pack(size, 0));
    }

    /** Case 1 of coalesce: only the previous block is free; the footer of
        ptr and then the header of the previous block get the merged size,
        and the merged block's payload is returned. */
    method MergePrev(ptr: int, size0: nat, ghost i: nat) returns (r: int)
      requires Wf(mem, blocks) && 1 < i < |blocks| && !blocks[i - 1].alloc && !blocks[i].alloc
      requires i + 1 < |blocks| ==> blocks[i + 1].alloc
      requires ptr == Off(blocks, i) && size0 == Size(blocks[i])
      modifies `mem
      ensures 1 <= blocks[i].units && Hw(blocks, |blocks|) <= |old(mem)|
      ensures mem == CoalesceMem(old(mem), blocks, i)
      ensures r == Off(blocks, i - 1)
    {
      PrevBlock(mem, blocks, i);
      CoalesceReadsPrev(mem, blocks, i);
      var size := size0 + GetSize(Get(mem, Ftrp(mem, PrevBlkp(mem, ptr))));
      CoalescePrevCase(mem, blocks, i, ptr, size);
      Put(Ftrp(mem, ptr), Pack(size, 0));
      Put(Hdrp(PrevBlkp(mem, ptr)), Pack(size, 0));
      r := PrevBlkp(mem, ptr);
    }

    /** Case 0 of coalesce: both neighbours are free; the header of the
        previous block and the footer of the next get the merged size, and
        the merged block's payload is returned. */
    method MergeBoth(ptr: int, size0: nat, ghost i: nat) returns (r: int)
      requires Wf(mem, blocks) && 1 < i && i + 1 < |blocks|
      requires !blocks[i - 1].alloc && !blocks[i].alloc && !blocks[i + 1].alloc
      requires ptr == Off(blocks, i) && size0 == Size(blocks[i])
      modifies `mem
      ensures 1 <= blocks[i].units && Hw(blocks, |blocks|) <= |old(mem)|
      ensures mem == CoalesceMem(old(mem), blocks, i)
      ensures r == Off(blocks, i - 1)
    {
      CoalesceReads(mem, blocks, i);
      CoalesceReadsPrev(mem, blocks, i);
      CoalesceReadsNext(mem, blocks, i);
      var size := size0 + GetSize(Get(mem, Hdrp(PrevBlkp(mem, ptr)))) + GetSize(Get(mem, Ftrp(mem, NextBlkp(mem, ptr))));
      CoalesceBothCase(mem, blocks, i, ptr, size);
      Put(Hdrp(PrevBlkp(mem, ptr)), Pack(size, 0));
      Put(Ftrp(mem, NextBlkp(mem, ptr)), Pack(size, 0));
      r := PrevBlkp(mem, ptr);
    }

    /** coalesce(ptr): merge the free block i at ptr with whichever of its
        neighbours are free, and return the merged block's payload pointer. */
    method Coalesce(ptr: int, ghost i: nat) returns (r: int)
      requires Valid() && 1 <= i < |blocks| && !blocks[i].alloc && ptr == Off(blocks, i)
      modifies `mem, `blocks
      ensures Valid()
      ensures blocks == Coalesced(old(blocks), i)
      ensures Hw(old(blocks), |old(blocks)|) <= |old(mem)| && 1 <= old(blocks)[i].units
      ensures mem == CoalesceMem(old(mem), old(blocks), i)
      ensures r == Off(blocks, CoalesceLo(old(blocks), i))
    {
      ghost var bs := blocks;
      ghost var lo, hi := CoalesceLo(bs, i), CoalesceHi(bs, i);
      CoalesceWf(mem, bs, i);
      CoalesceReads(mem, bs, i);
      var prevAlloc := GetAlloc(Get(mem, Ftrp(mem, PrevBlkp(mem, ptr))));
      var nextAlloc := GetAlloc(Get(mem, Hdrp(NextBlkp(mem, ptr))));
      var size := GetSize(Get(mem, Hdrp(ptr)));
      var condition := 2 * prevAlloc + nextAlloc;  // (prev_alloc << 1) | next_alloc
      if condition == 3 {
        // both neighbours allocated
        assert lo == i && hi == i + 1;
        CoalesceMemCases(mem, bs, i);
        WfBlock(mem, bs, i);
        WriteTagsSame(mem, Hw(bs, i), bs[i]);
        r := ptr;
      } else if condition == 2 {
        // only the next block is free
        assert lo == i && hi == i + 2;
        MergeNext(ptr, size, i);
        r := ptr;
      } else if condition == 1 {
        // only the previous block is free
        assert lo == i - 1 && hi == i + 1;
        r := MergePrev(ptr, size, i);
      } else {
        // both neighbours free
        assert lo == i - 1 && hi == i + 2;
        r := MergeBoth(ptr, size, i);
      }
      assert mem == CoalesceMem(old(mem), bs, i) && r == Off(bs, lo);
      blocks := Coalesced(bs, i);
      CoalescedHw(bs, i);
    }

    /** extend_heap(words): grow the heap by adjust_size(words) bytes; the
        old epilogue becomes the header of a free block, a new epilogue
        follows it, and the block is coalesced with a free last block. The
        merged block's payload is returned; 0 when sbrk fails, and then
        nothing changes. */
    method ExtendHeap(words: nat) returns (bp: int)
      requires Valid() && 1 <= words
      modifies `mem, `blocks
      ensures Valid()
      ensures 4 * old(|mem|) + AdjustSize(words) > limit ==>
        bp == 0 && mem == old(mem) && blocks == old(blocks)
      ensures 4 * old(|mem|) + AdjustSize(words) <= limit ==>
        var g := Grown(old(mem), old(blocks), AdjustSize(words) / 8);
        && mem == g.mem && blocks == g.blocks && bp == g.ptr
    {
      var size := AdjustSize(words);
      ghost var m0, bs, u := mem, blocks, size / 8;
      var brk := Sbrk(size);
      if brk == -1 {
        return 0;
      }
      bp := brk;
      WfBlock(m0, bs, |bs|);
      assert 8 * u == size && |mem| == |m0| + 2 * u;
      InitBlock(bp, size, |m0| - 1, u);
      PackRoundTrip(size, 0);
      SetNewEpilogue(bp, size, |m0| - 1, u);
      assert mem == GrowMem(m0, u);
      GrowWf(m0, bs, u);
      blocks := bs + [Block(u, false)];
      bp := Coalesce(bp, |bs|);
    }

    /** init: write the padding word, the prologue's header and footer and
        the epilogue into the four words at heap_listp, point heap_listp at
        the prologue's payload, and extend the heap by CHUNKSIZE bytes; 1 on
        success, 0 when that extension fails. */
    method Init() returns (r: int)
      requires |mem| == 4 && heapListp == 0 && 16 <= limit
      modifies `mem, `heapListp, `blocks
      ensures Valid()
      ensures r == 0 || r == 1
      ensures r == 1 <==> 16 + 4096 <= limit
      ensures r == 1 ==> blocks == [Prologue, Block(512, false)] && |mem| == 4 + 1024
      ensures r == 0 ==> blocks == [Prologue] && mem == [0, Pack(8, 1), Pack(8, 1), Pack(0, 1)]
    {
      Put(heapListp, 0);                  // alignment padding
      Put(heapListp + 4, Pack(8, 1));     // prologue header
      Put(heapListp + 8, Pack(8, 1));     // prologue footer
      Put(heapListp + 12, Pack(0, 1));    // epilogue header
      heapListp := heapListp + 8;
      TagIsPack(Prologue);
      assert mem == [0, Tag(Prologue), Tag(Prologue), Pack(0, 1)];
      blocks := [Prologue];
      assert Sum(blocks[1..]) == 0;
      assert Layout(mem, 3, blocks[1..]);
      ghost var m0, bs := mem, blocks;
      var p := ExtendHeap(4096 / 4);
      if p == 0 {
        return 0;
      }
      GrownShape(m0, bs, 512);
      return 1;
    }

    /** mm_init: take the first four words from sbrk and set up the heap
        there; 0 on success, -1 when sbrk or the first extension fails. */
    method MmInit() returns (r: int)
      requires mem == [] && heapListp == 0
      modifies `mem, `heapListp, `blocks
      ensures r == 0 || r == -1
      ensures r == 0 <==> 16 + 4096 <= limit
      ensures 16 <= limit ==> Valid()
      ensures r == 0 ==> blocks == [Prologue, Block(512, false)] && |mem| == 4 + 1024
      ensures limit < 16 ==> mem == [] && heapListp == -1
    {
      heapListp := Sbrk(16);
      if heapListp == -1 {
        return -1;
      }
      var ok := Init();
      if ok == 0 {
        return -1;
      }
      return 0;
    }

    /** find_fit(asize): walk the blocks from heap_listp, through NEXT_BLKP,
        up to the size-0 epilogue, and return the first free block of at
        least asize bytes, or 0 if there is none. */
    method FindFit(asize: nat) returns (p: int)
      requires Valid()
      ensures p == if FirstFit(blocks, asize) < |blocks| then Off(blocks, FirstFit(blocks, asize)) else 0
    {
      ghost var k: nat, bs := 0, blocks;
      p := heapListp;
      WalkStep(mem, bs, 0);
      while GetSize(Get(mem, Hdrp(p))) > 0
        invariant k <= |bs| && p == Off(bs, k) && InHeap(mem, Hdrp(p))
        invariant forall j :: 0 <= j < k ==> !Fits(bs[j], asize)
        decreases |bs| - k
      {
        WalkStep(mem, bs, k);
        if GetAlloc(Get(mem, Hdrp(p))) == 0 && asize <= GetSize(Get(mem, Hdrp(p))) {
          return p;
        }
        p := NextBlkp(mem, p);
        k := k + 1;
        WalkStep(mem, bs, k);
      }
      WalkStep(mem, bs, k);
      FirstFitNone(bs, asize);
      return 0;
    }

    /** place on block f of the heap, for asize bytes: the words as Place
        leaves them, and the block list with block f split (or marked
        allocated whole). */
    method PlaceIn(bp: int, asize: nat, ghost f: nat)
      requires Valid() && 1 <= f < |blocks| && bp == Off(blocks, f)
      requires asize % 8 == 0 && 8 <= asize <= Size(blocks[f])
      modifies `mem, `blocks
      ensures Valid()
      ensures var o := Placed(old(mem), old(blocks), f, asize / 8);
        mem == o.mem && blocks == o.blocks
    {
      ghost var bs := blocks;
      WfBlock(mem, bs, f);
      TagIsPack(bs[f]);
      PlaceWf(mem, bs, f, asize / 8);
      Place(bp, asize, Hw(bs, f), bs[f].units);
      blocks := PlaceBlocks(bs, f, asize / 8);
    }

    /** mm_malloc(size): 0 for size 0; otherwise place adjust(size) bytes in
        the first fit, or, when nothing fits, in the block extend_heap
        returns after growing by max(asize, CHUNKSIZE) bytes; 0 when that
        fails. */
    method MmMalloc(size: nat) returns (bp: int)
      requires Valid()
      modifies `mem, `blocks
      ensures Valid()
      ensures var o := Malloc(old(mem), old(blocks), limit, size);
        mem == o.mem && blocks == o.blocks && bp == o.ptr
    {
      if size == 0 {
        return 0;
      }
      var asize := Adjust(size);
      bp := AllocateBlock(asize);
    }

    /** The search-or-grow step that mm_malloc and handle_size_greater both
        spell out for a block of asize bytes: place in the first fit, or,
        when nothing fits, in the block extend_heap returns after growing
        by max(asize, CHUNKSIZE) bytes; 0 when that fails. */
    method AllocateBlock(asize: nat) returns (bp: int)
      requires Valid() && asize % 8 == 0 && 16 <= asize
      modifies `mem, `blocks
      ensures Valid()
      ensures var o := Allocate(old(mem), old(blocks), limit, asize);
        mem == o.mem && blocks == o.blocks && bp == o.ptr
    {
      ghost var m0, bs := mem, blocks;
      FirstFitNone(bs, asize);
      bp := FindFit(asize);
      if bp != 0 {
        PlaceIn(bp, asize, FirstFit(bs, asize));
        return bp;
      }
      var extendsize := Max(asize, 4096);
      ghost var u := extendsize / 8;
      AdjustSizeOfBlockSize(extendsize);
      bp := ExtendHeap(extendsize / 4);
      if bp == 0 {
        return 0;
      }
      ghost var g := Grown(m0, bs, u);
      PlaceIn(bp, asize, g.index);
      assert Allocate(m0, bs, limit, asize) == Placed(g.mem, g.blocks, g.index, asize / 8);
    }

    /** mm_free(ptr): rewrite the tags of ptr's block as free and coalesce. */
    method MmFree(ptr: int, ghost i: nat)
      requires Valid() && 1 <= i < |blocks| && ptr == Off(blocks, i)
      modifies `mem, `blocks
      ensures Valid()
      ensures var o := Free(old(mem), old(blocks), i);
        mem == o.mem && blocks == o.blocks
    {
      ghost var m0, bs := mem, blocks;
      ghost var h, f := Hw(bs, i), Block(bs[i].units, false);
      WfBlock(m0, bs, i);
      TagIsPack(bs[i]);
      TagIsPack(f);
      FreeWf(m0, bs, i);
      assert Hdrp(ptr) / 4 == h;
      var size := GetSize(Get(mem, Hdrp(ptr)));
      Put(Hdrp(ptr), Pack(size, 0));
      Put(Ftrp(mem, ptr), Pack(size, 0));
      assert mem == WriteTags(m0, h, f);
      blocks := bs[i := f];
      assert blocks[..i] == bs[..i];
      var merged := Coalesce(ptr, i);
    }

    /** memcpy(dst, src, n) for n bytes, a whole number of words, between
        runs that do not overlap (as memcpy demands), one word at a time. */
    method Memcpy(dst: int, src: int, n: nat)
      requires dst % 4 == 0 && src % 4 == 0 && n % 4 == 0 && 0 <= dst && 0 <= src
      requires dst / 4 + n / 4 <= |mem| && src / 4 + n / 4 <= |mem|
      requires dst / 4 + n / 4 <= src / 4 || src / 4 + n / 4 <= dst / 4
      modifies `mem
      ensures mem == CopyWords(old(mem), dst / 4, src / 4, n / 4)
    {
      var d, s := dst / 4, src / 4;
      var k := 0;
      while k < n / 4
        invariant 0 <= k <= n / 4
        invariant mem == CopyWords(old(mem), d, s, k)
      {
        mem := mem[d + k := mem[s + k]];
        k := k + 1;
      }
    }

    /** The in-place branch of handle_size_greater: the header of ptr is
        rewritten as a free block of sizesum bytes, spanning block i and its
        free successor, and asize is placed there. */
    method GrowInPlace(ptr: int, asize: nat, sizesum: nat, ghost i: nat)
      requires Valid() && 1 <= i && i + 1 < |blocks| && ptr == Off(blocks, i)
      requires sizesum == Size(blocks[i]) + Size(blocks[i + 1])
      requires asize % 8 == 0 && 16 <= asize <= sizesum
      modifies `mem, `blocks
      ensures Valid()
      ensures var o := Absorb(old(mem), old(blocks), i, asize);
        mem == o.mem && blocks == o.blocks
    {
      ghost var m0, bs := mem, blocks;
      ghost var h, u := Hw(bs, i), bs[i].units + bs[i + 1].units;
      assert sizesum == 8 * u;
      PackRoundTrip(sizesum, 0);
      assert Hdrp(ptr) / 4 == h;
      PairBounds(m0, bs, i);
      Put(Hdrp(ptr), Pack(sizesum, 0));
      Place(ptr, asize, h, u);
      AbsorbSteps(m0, bs, i, asize, h, u, mem);
      blocks := Absorb(m0, bs, i, asize).blocks;
    }

    /** The copy in the relocating branch of handle_size_greater, once the
        new block a.index is placed: the payload of block j (at ptr, of
        blockSize bytes less header and footer) is copied to newptr. */
    method CopyPayload(newptr: int, ptr: int, blockSize: nat, ghost a: Outcome, ghost j: nat)
      requires Valid() && mem == a.mem && blocks == a.blocks
      requires 1 <= a.index < |blocks| && newptr == Off(blocks, a.index)
      requires 1 <= j < |blocks| && j != a.index && blocks[j].units < blocks[a.index].units
      requires ptr == Off(blocks, j) && blockSize == Size(blocks[j])
      modifies `mem
      ensures mem == MoveMem(a, j) && Valid()
    {
      ghost var bs := blocks;
      ghost var d, s, n := Hw(bs, a.index) + 1, Hw(bs, j) + 1, 2 * bs[j].units - 2;
      PayloadsApart(mem, bs, j, a.index);
      assert newptr / 4 == d && ptr / 4 == s && (blockSize - 8) / 4 == n;
      Memcpy(newptr, ptr, blockSize - 8);
      MoveMemIs(a, j, d, s, n);
    }

    /** The end of the relocating branch of handle_size_greater: the
        payload of block j is moved into the new block a.index and block j
        is freed. */
    method MoveAndFree(newptr: int, ptr: int, blockSize: nat, ghost a: Outcome, ghost j: nat)
      requires Valid() && mem == a.mem && blocks == a.blocks
      requires 1 <= a.index < |blocks| && newptr == a.ptr == Off(blocks, a.index)
      requires 1 <= j < |blocks| && j != a.index && blocks[j].alloc && blocks[a.index].alloc
      requires blocks[j].units < blocks[a.index].units
      requires ptr == Off(blocks, j) && blockSize == Size(blocks[j])
      modifies `mem, `blocks
      ensures Valid()
      ensures var o := MoveBlock(a, j);
        mem == o.mem && blocks == o.blocks
    {
      CopyPayload(newptr, ptr, blockSize, a, j);  // memcpy(newptr, ptr, blockSize - 2 * WSIZE)
      MoveBlockIs(a, j, mem);
      MmFree(ptr, j);
    }

    /** handle_size_greater(ptr, asize, blockSize) for the allocated block
        i that must grow: when its successor is free and the two hold asize
        bytes, the header of ptr is rewritten as a free block spanning both
        and asize is placed there; otherwise a block is found (or the heap
        extended) and placed as in mm_malloc, the old payload copied into
        it and ptr freed. 0, with nothing changed, when no block can be
        had. */
    method HandleSizeGreater(ptr: int, asize: nat, blockSize: nat, ghost i: nat) returns (newptr: int)
      requires Valid() && 1 <= i < |blocks| && blocks[i].alloc && ptr == Off(blocks, i)
      requires blockSize == Size(blocks[i]) && asize % 8 == 0 && 16 <= asize && blockSize < asize
      modifies `mem, `blocks
      ensures Valid()
      ensures var o := Expand(old(mem), old(blocks), limit, i, asize);
        mem == o.mem && blocks == o.blocks && newptr == o.ptr
    {
      ghost var m0, bs := mem, blocks;
      WalkStep(m0, bs, i);
      WalkStep(m0, bs, i + 1);
      var nextptr := NextBlkp(mem, ptr);
      var sizesum := GetSize(Get(mem, Hdrp(nextptr))) + blockSize;
      if GetAlloc(Get(mem, Hdrp(nextptr))) == 0 && sizesum >= asize {
        // grow in place over the free successor
        assert CanAbsorb(bs, i, asize);
        GrowInPlace(ptr, asize, sizesum, i);
        return ptr;
      }
      assert !CanAbsorb(bs, i, asize);
      ghost var a := Allocate(m0, bs, limit, asize);
      newptr := AllocateBlock(asize);
      if newptr == 0 {
        return 0;
      }
      AllocateKeeps(m0, bs, limit, asize, i);
      MoveAndFree(newptr, ptr, blockSize, a, Kept(bs, asize, i));
    }

    /** mm_realloc(ptr, size): mm_malloc(size) for a null ptr; for the
        block i that ptr names, size 0 frees it and gives 0; otherwise, with
        asize = adjust(size), an equal size keeps the block, a smaller one
        is placed in it, and a greater one is left to handle_size_greater. */
    method MmRealloc(ptr: int, size: nat, ghost i: nat) returns (r: int)
      requires Valid()
      requires ptr != 0 ==> 1 <= i < |blocks| && blocks[i].alloc && ptr == Off(blocks, i)
      modifies `mem, `blocks
      ensures Valid()
      ensures ptr == 0 ==> var o := Malloc(old(mem), old(blocks), limit, size);
        mem == o.mem && blocks == o.blocks && r == o.ptr
      ensures ptr != 0 ==> var o := Realloc(old(mem), old(blocks), limit, i, size);
        mem == o.mem && blocks == o.blocks && r == o.ptr
    {
      if ptr == 0 {
        r := MmMalloc(size);
        return;
      } else if size == 0 {
        MmFree(ptr, i);
        return 0;
      }
      var asize := Adjust(size);
      WalkStep(mem, blocks, i);
      var blockSize := GetSize(Get(mem, Hdrp(ptr)));
      var caseType: int;
      if asize == blockSize {
        caseType := SIZE_EQUAL;
      } else if asize < blockSize {
        caseType := SIZE_LESS;
      } else {
        caseType := SIZE_GREATER;
      }
      if caseType == SIZE_EQUAL {
        return ptr;
      } else if caseType == SIZE_LESS {
        PlaceIn(ptr, asize, i);
        return ptr;
      } else {
        r := HandleSizeGreater(ptr, asize, blockSize, i);
      }
    }
  }
}
