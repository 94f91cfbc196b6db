/** What each allocator operation does to a well-formed heap, as pure
    definitions over the words and the block list: extend_heap's growth,
    mm_malloc's first fit or growth followed by place, and mm_free. The
    methods of Ummalloc.Heap are proved to end in exactly these states; the
    lemmas here state what the allocator promises about them. */
module HeapOps {
  import opened BlockFormat
  import opened HeapLayout

  /** The words and blocks an operation leaves, the pointer it returns
      (0 for NULL) and the index of the block that pointer names. */
  datatype Outcome = Outcome(mem: seq<nat>, blocks: seq<Block>, ptr: nat, index: nat)

  // ---------------------------------------------------------------------
  // extend_heap

  /** extend_heap when sbrk succeeds with u double words: a free block of
      u double words is appended in place of the old epilogue, a new
      epilogue follows it, and the new block is coalesced with a free last
      block; the pointer is the merged block's payload. */
  ghost function Grown(mem: seq<nat>, bs: seq<Block>, u: nat): (o: Outcome)
    requires Wf(mem, bs) && 1 <= u
    ensures Wf(o.mem, o.blocks)
    ensures |o.mem| == |mem| + 2 * u
    ensures 1 <= o.index < |o.blocks| && o.ptr == Off(o.blocks, o.index)
    ensures !o.blocks[o.index].alloc && u <= o.blocks[o.index].units
  {
    var es := bs + [Block(u, false)];
    GrowWf(mem, bs, u);
    CoalesceWf(GrowMem(mem, u), es, |bs|);
    CoalescedHw(es, |bs|);
    assert es[0] == bs[0];
    var k := CoalesceLo(es, |bs|);
    Outcome(CoalesceMem(GrowMem(mem, u), es, |bs|), Coalesced(es, |bs|), Off(Coalesced(es, |bs|), k), k)
  }

  /** Growth keeps every block but the last; the new block becomes a block
      of its own whose header is the old epilogue word when the last block
      is allocated, and is merged into the last block when that is free. */
  lemma GrownShape(mem: seq<nat>, bs: seq<Block>, u: nat)
    requires Wf(mem, bs) && 1 <= u
    ensures var o := Grown(mem, bs, u);
      && o.blocks[..|bs| - 1] == bs[..|bs| - 1]
      && (bs[|bs| - 1].alloc ==>
            o.blocks == bs + [Block(u, false)] && o.index == |bs| && Hw(o.blocks, |bs|) == |mem| - 1)
      && (!bs[|bs| - 1].alloc ==>
            o.blocks == bs[..|bs| - 1] + [Block(bs[|bs| - 1].units + u, false)] && o.index == |bs| - 1)
  {
    var es := bs + [Block(u, false)];
    var n := |bs|;
    var o := Grown(mem, bs, u);
    CoalesceUnits(es, n);
    assert es[n - 1] == bs[n - 1] && es[n] == Block(u, false);
    assert es[..n - 1] == bs[..n - 1];
    if bs[n - 1].alloc {
      assert es[n..n + 1] == [Block(u, false)];
      SumSingle(Block(u, false));
      assert es[..n] + [Block(u, false)] + es[n + 1..] == es;
      WfBlock(mem, bs, n);
      assert es[..n] == bs;
    } else {
      assert es[..n - 1] + [Block(bs[n - 1].units + u, false)] + es[n + 1..]
          == bs[..n - 1] + [Block(bs[n - 1].units + u, false)];
    }
  }

  /** Growth keeps free blocks apart. */
  lemma GrownNoAdjacentFree(mem: seq<nat>, bs: seq<Block>, u: nat)
    requires Wf(mem, bs) && 1 <= u && NoAdjacentFree(bs)
    ensures NoAdjacentFree(Grown(mem, bs, u).blocks)
  {
    ExtendNoAdjacentFree(bs, u);
  }

  // ---------------------------------------------------------------------
  // mm_malloc

  /** place(bp, asize) on block f, free or allocated, as an outcome: the
      first au double words become an allocated block, and a remainder of
      at least one double word becomes a free block after it; bp is
      returned. */
  ghost function Placed(mem: seq<nat>, bs: seq<Block>, f: nat, au: nat): (o: Outcome)
    requires Wf(mem, bs) && 1 <= f < |bs| && 1 <= au <= bs[f].units
    ensures Wf(o.mem, o.blocks) && |o.mem| == |mem|
    ensures o.index == f < |o.blocks| && o.ptr == Off(o.blocks, f) == Off(bs, f)
    ensures o.blocks[f].alloc && au <= o.blocks[f].units
  {
    PlaceWf(mem, bs, f, au);
    var r := PlaceBlocks(bs, f, au);
    assert r[..f] == bs[..f];
    Outcome(PlaceMem(mem, Hw(bs, f), bs[f].units, au), r, Off(bs, f), f)
  }

  /** The heap after the allocation step of mm_malloc for a block of asize
      bytes: place in the first fit if there is one; otherwise grow the heap
      by max(asize, CHUNKSIZE) bytes and place in the block that growth
      returns; the pointer is 0, and nothing changes, when growth fails. */
  ghost function Allocate(mem: seq<nat>, bs: seq<Block>, limit: nat, asize: nat): (o: Outcome)
    requires Wf(mem, bs) && asize % 8 == 0 && 16 <= asize
    ensures Wf(o.mem, o.blocks)
    ensures o.ptr != 0 ==>
      && 1 <= o.index < |o.blocks| && o.ptr == Off(o.blocks, o.index)
      && o.blocks[o.index].alloc && asize <= Size(o.blocks[o.index])
    ensures o.ptr == 0 ==> o.mem == mem && o.blocks == bs
  {
    var au := asize / 8;
    var f := FirstFit(bs, asize);
    FirstFitNone(bs, asize);
    if f < |bs| then
      Placed(mem, bs, f, au)
    else if 4 * |mem| + Max(asize, 4096) > limit then
      Outcome(mem, bs, 0, 0)
    else
      var g := Grown(mem, bs, Max(asize, 4096) / 8);
      Placed(g.mem, g.blocks, g.index, au)
  }

  /** mm_malloc(size): 0 for a size-0 request, else the allocation step for
      adjust(size). */
  ghost function Malloc(mem: seq<nat>, bs: seq<Block>, limit: nat, size: nat): (o: Outcome)
    requires Wf(mem, bs)
    ensures Wf(o.mem, o.blocks)
    ensures o.ptr != 0 ==>
      && 1 <= o.index < |o.blocks| && o.ptr == Off(o.blocks, o.index)
      && o.blocks[o.index].alloc && size + 8 <= Size(o.blocks[o.index])
  {
    if size == 0 then Outcome(mem, bs, 0, 0) else Allocate(mem, bs, limit, Adjust(size))
  }

  /** The allocation step fails exactly when no block fits and sbrk
      cannot grow the heap by max(asize, CHUNKSIZE) bytes. */
  lemma AllocateNull(mem: seq<nat>, bs: seq<Block>, limit: nat, asize: nat)
    requires Wf(mem, bs) && asize % 8 == 0 && 16 <= asize
    ensures Allocate(mem, bs, limit, asize).ptr == 0 <==>
      && (forall j :: 0 <= j < |bs| ==> !Fits(bs[j], asize))
      && 4 * |mem| + Max(asize, 4096) > limit
  {
    FirstFitNone(bs, asize);
  }

  /** A request is placed in the first fit when there is one, and then the
      heap does not grow. */
  lemma MallocFirstFit(mem: seq<nat>, bs: seq<Block>, limit: nat, size: nat)
    requires Wf(mem, bs) && 0 < size && FirstFit(bs, Adjust(size)) < |bs|
    ensures var o := Malloc(mem, bs, limit, size);
      && o.index == FirstFit(bs, Adjust(size)) && o.ptr == Off(bs, o.index)
      && |o.mem| == |mem|
      && o.blocks == PlaceBlocks(bs, o.index, Adjust(size) / 8)
  {
  }

  /** With no fit, the heap grows by max(adjust(size), CHUNKSIZE) bytes when
      sbrk allows it, and the block placed is the one growth returned. */
  lemma MallocGrows(mem: seq<nat>, bs: seq<Block>, limit: nat, size: nat)
    requires Wf(mem, bs) && 0 < size && FirstFit(bs, Adjust(size)) == |bs|
    requires 4 * |mem| + Max(Adjust(size), 4096) <= limit
    ensures var o := Malloc(mem, bs, limit, size);
      var g := Grown(mem, bs, Max(Adjust(size), 4096) / 8);
      && o.ptr == g.ptr != 0 && o.index == g.index
      && 4 * |o.mem| == 4 * |mem| + Max(Adjust(size), 4096)
  {
    var asize := Adjust(size);
    var u := Max(asize, 4096) / 8;
    assert 8 * u == Max(asize, 4096);
    var g := Grown(mem, bs, u);
    var o := Placed(g.mem, g.blocks, g.index, asize / 8);
    assert Malloc(mem, bs, limit, size) == Allocate(mem, bs, limit, asize) == o;
    assert |o.mem| == |g.mem| == |mem| + 2 * u;
  }

  /** mm_malloc returns NULL exactly for a size-0 request or when there is
      no fit and the heap cannot grow, and then the heap is unchanged. */
  lemma MallocNull(mem: seq<nat>, bs: seq<Block>, limit: nat, size: nat)
    requires Wf(mem, bs)
    ensures var o := Malloc(mem, bs, limit, size);
      && (o.ptr == 0 <==>
           size == 0
           || ((forall j :: 0 <= j < |bs| ==> !Fits(bs[j], Adjust(size)))
               && 4 * |mem| + Max(Adjust(size), 4096) > limit))
      && (o.ptr == 0 ==> o.mem == mem && o.blocks == bs)
  {
    if size > 0 {
      AllocateNull(mem, bs, limit, Adjust(size));
    }
  }

  /** mm_malloc keeps free blocks apart. */
  lemma MallocNoAdjacentFree(mem: seq<nat>, bs: seq<Block>, limit: nat, size: nat)
    requires Wf(mem, bs) && NoAdjacentFree(bs)
    ensures NoAdjacentFree(Malloc(mem, bs, limit, size).blocks)
  {
    if size > 0 {
      var asize := Adjust(size);
      var f := FirstFit(bs, asize);
      if f < |bs| {
        PlaceNoAdjacentFree(bs, f, asize / 8);
      } else if 4 * |mem| + Max(asize, 4096) <= limit {
        var u := Max(asize, 4096) / 8;
        var g := Grown(mem, bs, u);
        GrownNoAdjacentFree(mem, bs, u);
        PlaceNoAdjacentFree(g.blocks, g.index, asize / 8);
      }
    }
  }

  // ---------------------------------------------------------------------
  // mm_free

  /** mm_free on block i: its tags are rewritten as free and it is
      coalesced; the index is the merged block's (mm_free returns nothing). */
  ghost function Free(mem: seq<nat>, bs: seq<Block>, i: nat): (o: Outcome)
    requires Wf(mem, bs) && 1 <= i < |bs|
    ensures Wf(o.mem, o.blocks)
    ensures o.ptr == 0 && o.index < |o.blocks| && !o.blocks[o.index].alloc
  {
    var fs := bs[i := Block(bs[i].units, false)];
    FreeWf(mem, bs, i);
    var m1 := WriteTags(mem, Hw(bs, i), fs[i]);
    CoalesceWf(m1, fs, i);
    Outcome(CoalesceMem(m1, fs, i), Coalesced(fs, i), 0, CoalesceLo(fs, i))
  }

  /** The freed block ends up inside the free block Free names, whose size
      is its own plus that of each free neighbour; blocks before that one
      keep their places. */
  lemma FreeMerges(mem: seq<nat>, bs: seq<Block>, i: nat)
    requires Wf(mem, bs) && 1 <= i < |bs|
    ensures var o := Free(mem, bs, i);
      && o.index == (if bs[i - 1].alloc then i else i - 1)
      && o.blocks[..o.index] == bs[..o.index]
      && Hw(o.blocks, o.index) <= Hw(bs, i)
      && Hw(bs, i) + 2 * bs[i].units <= Hw(o.blocks, o.index) + 2 * o.blocks[o.index].units
      && o.blocks[o.index].units
         == (if bs[i - 1].alloc then 0 else bs[i - 1].units) + bs[i].units
          + (if i + 1 < |bs| && !bs[i + 1].alloc then bs[i + 1].units else 0)
  {
    var fs := bs[i := Block(bs[i].units, false)];
    var o := Free(mem, bs, i);
    CoalesceUnits(fs, i);
    CoalescedHw(fs, i);
    var lo := CoalesceLo(fs, i);
    assert fs[..lo] == bs[..lo];
    HwSlice(fs, lo, i);
    HwSlice(fs, lo, CoalesceHi(fs, i));
    HwNext(fs, i);
    if i + 1 < CoalesceHi(fs, i) {
      HwMonotone(fs, i + 1, CoalesceHi(fs, i));
    }
    HwMark(bs, i, false, i);
  }

  /** mm_free keeps free blocks apart. */
  lemma FreeKeepsNoAdjacentFree(mem: seq<nat>, bs: seq<Block>, i: nat)
    requires Wf(mem, bs) && 1 <= i < |bs| && NoAdjacentFree(bs)
    ensures NoAdjacentFree(Free(mem, bs, i).blocks)
  {
    FreeNoAdjacentFree(bs, i);
  }

  // ---------------------------------------------------------------------
  // Blocks an operation leaves where they were

  /** Marking block i allocated or free moves no header. */
  lemma HwMark(bs: seq<Block>, i: nat, a: bool, y: nat)
    requires i < |bs| && y <= |bs|
    ensures Hw(bs[i := Block(bs[i].units, a)], y) == Hw(bs, y)
  {
    var fs := bs[i := Block(bs[i].units, a)];
    if y <= i {
      assert fs[..y] == bs[..y];
    } else {
      HwNext(bs, i);
      HwNext(fs, i);
      assert fs[..i] == bs[..i];
      HwSlice(bs, i + 1, y);
      HwSlice(fs, i + 1, y);
      assert fs[i + 1..y] == bs[i + 1..y];
    }
  }

  /** place in block f leaves every other block x, and its words, where
      they were; blocks after f shift by the one block a split adds. */
  lemma PlaceKeeps(mem: seq<nat>, bs: seq<Block>, f: nat, au: nat, x: nat)
    requires Wf(mem, bs) && 1 <= f < |bs| && 1 <= au <= bs[f].units && x < |bs| && x != f
    ensures var r := PlaceBlocks(bs, f, au);
      var y := if x < f then x else x + |Split(bs[f].units, au)| - 1;
      && y < |r| && r[y] == bs[x] && Hw(r, y) == Hw(bs, x)
      && Hw(bs, x) + 2 * bs[x].units <= |mem|
      && Hw(bs, f) + 2 * bs[f].units <= |mem|
      && forall w :: Hw(bs, x) <= w < Hw(bs, x) + 2 * bs[x].units ==>
           PlaceMem(mem, Hw(bs, f), bs[f].units, au)[w] == mem[w]
  {
    var sp := Split(bs[f].units, au);
    var r := PlaceBlocks(bs, f, au);
    assert r == bs[..f] + sp + bs[f + 1..];
    WfBlock(mem, bs, x);
    WfBlock(mem, bs, f);
    PlaceMemFrame(mem, Hw(bs, f), bs[f].units, au);
    if x < f {
      assert r[..x] == bs[..x];
      HwMonotone(bs, x, f);
    } else {
      assert bs[f..f + 1] == [bs[f]];
      SumSingle(bs[f]);
      SpliceAfter(bs, f, f + 1, sp, x);
      HwMonotone(bs, f, x);
    }
  }

  /** Growth leaves every allocated block, and its words, where they were,
      and the block it returns lies after them. */
  lemma GrownKeeps(mem: seq<nat>, bs: seq<Block>, u: nat, x: nat)
    requires Wf(mem, bs) && 1 <= u && x < |bs| && bs[x].alloc
    ensures var g := Grown(mem, bs, u);
      && x < g.index && g.blocks[x] == bs[x] && Hw(g.blocks, x) == Hw(bs, x)
      && Hw(bs, x) + 2 * bs[x].units <= |mem|
      && forall w :: Hw(bs, x) <= w < Hw(bs, x) + 2 * bs[x].units ==> g.mem[w] == mem[w]
  {
    GrownKeepsBlock(mem, bs, u, x);
    GrownKeepsWords(mem, bs, u, x);
  }

  /** Growth leaves every allocated block where it was, before the block
      it returns. */
  lemma GrownKeepsBlock(mem: seq<nat>, bs: seq<Block>, u: nat, x: nat)
    requires Wf(mem, bs) && 1 <= u && x < |bs| && bs[x].alloc
    ensures var g := Grown(mem, bs, u);
      && x < g.index && g.blocks[x] == bs[x] && Hw(g.blocks, x) == Hw(bs, x)
  {
    var n := |bs|;
    var g := Grown(mem, bs, u);
    GrownShape(mem, bs, u);
    if bs[n - 1].alloc {
      assert g.blocks[..x] == bs[..x];
    } else {
      assert g.blocks[..n - 1][..x] == bs[..x];
      assert g.blocks[..x] == bs[..x];
    }
  }

  /** Growth leaves the words of every allocated block as they were. */
  lemma GrownKeepsWords(mem: seq<nat>, bs: seq<Block>, u: nat, x: nat)
    requires Wf(mem, bs) && 1 <= u && x < |bs| && bs[x].alloc
    ensures Hw(bs, x) + 2 * bs[x].units <= |mem|
    ensures var g := Grown(mem, bs, u);
      forall w :: Hw(bs, x) <= w < Hw(bs, x) + 2 * bs[x].units ==> g.mem[w] == mem[w]
  {
    var n := |bs|;
    var es := bs + [Block(u, false)];
    var g := Grown(mem, bs, u);
    var gm := GrowMem(mem, u);
    GrownBound(mem, bs, u, x, es);
    GrowMemFrame(mem, u);
    GrowWf(mem, bs, u);
    CoalesceWf(gm, es, n);
    CoalesceMemFrame(gm, es, n);
    var lo := CoalesceLo(es, n);
    assert g.mem == CoalesceMem(gm, es, n);
    forall w | Hw(bs, x) <= w < Hw(bs, x) + 2 * bs[x].units
      ensures g.mem[w] == mem[w]
    {
      assert w < Hw(es, lo);
      assert gm[w] == mem[w];
    }
  }

  /** Block x of the old heap, allocated, ends at or before the header of
      the block growth coalesces, which is inside the old heap. */
  lemma GrownBound(mem: seq<nat>, bs: seq<Block>, u: nat, x: nat, es: seq<Block>)
    requires Wf(mem, bs) && 1 <= u && x < |bs| && bs[x].alloc
    requires es == bs + [Block(u, false)]
    ensures var lo := CoalesceLo(es, |bs|);
      && Hw(bs, x) + 2 * bs[x].units <= Hw(es, lo) <= |mem| - 1
      && Hw(es, lo) + 1 < Hw(es, CoalesceHi(es, |bs|))
  {
    var n := |bs|;
    WfBlock(mem, bs, x);
    WfBlock(mem, bs, n);
    assert es[n - 1] == bs[n - 1] && es[x] == bs[x];
    var lo := CoalesceLo(es, n);
    var hi := CoalesceHi(es, n);
    assert hi == n + 1;
    assert x < lo;
    assert es[..x] == bs[..x];
    assert es[..n] == bs;
    HwNext(es, x);
    if x + 1 < lo { HwMonotone(es, x + 1, lo); }
    HwMonotone(es, lo, hi);
    if lo < n {
      WfBlock(mem, bs, lo);
      assert es[..lo] == bs[..lo];
    }
  }

  /** Where block x of bs is after mm_free of block i (x not among the
      blocks coalescing merges). */
  ghost function FreeIndex(bs: seq<Block>, i: nat, x: nat): (y: int)
    requires 1 <= i < |bs|
    ensures x < i ==> y == x
  {
    var fs := bs[i := Block(bs[i].units, false)];
    if x < i then x else x - (CoalesceHi(fs, i) - CoalesceLo(fs, i)) + 1
  }

  /** mm_free's coalescing leaves every other allocated block of the list
      where it was, before or after the merged block. */
  lemma FreeKeepsIndex(bs: seq<Block>, i: nat, x: nat)
    requires 1 <= i < |bs| && x < |bs| && x != i && bs[x].alloc
    ensures var fs := bs[i := Block(bs[i].units, false)];
      var lo, hi := CoalesceLo(fs, i), CoalesceHi(fs, i);
      var r := Coalesced(fs, i);
      var y := FreeIndex(bs, i, x);
      && 0 <= y < |r| && r[y] == bs[x] && Hw(r, y) == Hw(bs, x)
      && (x < i ==> y < lo && Hw(bs, x) + 2 * bs[x].units <= Hw(fs, lo))
      && (x > i ==> y > lo && Hw(fs, hi) <= Hw(bs, x))
  {
    var fs := bs[i := Block(bs[i].units, false)];
    var lo, hi := CoalesceLo(fs, i), CoalesceHi(fs, i);
    var b := Block(Sum(fs[lo..hi]), false);
    var r := Coalesced(fs, i);
    assert r == fs[..lo] + [b] + fs[hi..];
    HwMark(bs, i, false, x);
    if x < i {
      assert x < lo;
      assert r[..x] == fs[..x];
      HwMark(bs, i, false, x + 1);
      HwNext(bs, x);
      HwNext(fs, x);
      HwMonotone(fs, x, lo);
    } else {
      assert hi <= x;
      SumSingle(b);
      SpliceAfter(fs, lo, hi, [b], x);
      HwSlice(fs, hi, x);
    }
  }

  /** mm_free leaves any run of words inside another allocated block as it was. */
  lemma FreeKeepsWords(mem: seq<nat>, bs: seq<Block>, i: nat, x: nat, p: nat, n: nat)
    requires Wf(mem, bs) && 1 <= i < |bs| && x < |bs| && x != i && bs[x].alloc
    requires Hw(bs, x) <= p && p + n <= Hw(bs, x) + 2 * bs[x].units
    ensures SameWords(Free(mem, bs, i).mem, p, mem, p, n)
  {
    FreeKeeps(mem, bs, i, x);
    SameWordsIntro(Free(mem, bs, i).mem, mem, p, n);
  }

  /** mm_free leaves every other allocated block where it was. */
  lemma FreeKeepsBlock(mem: seq<nat>, bs: seq<Block>, i: nat, x: nat)
    requires Wf(mem, bs) && 1 <= i < |bs| && x < |bs| && x != i && bs[x].alloc
    ensures var o := Free(mem, bs, i);
      var y := FreeIndex(bs, i, x);
      && 0 <= y < |o.blocks| && o.blocks[y] == bs[x] && Hw(o.blocks, y) == Hw(bs, x)
      && (x > i ==> y > o.index)
  {
    FreeKeepsIndex(bs, i, x);
  }

  /** mm_free leaves every other allocated block, and its words, where
      they were. */
  lemma FreeKeeps(mem: seq<nat>, bs: seq<Block>, i: nat, x: nat)
    requires Wf(mem, bs) && 1 <= i < |bs| && x < |bs| && x != i && bs[x].alloc
    ensures var o := Free(mem, bs, i);
      var y := FreeIndex(bs, i, x);
      && 0 <= y < |o.blocks| && o.blocks[y] == bs[x] && Hw(o.blocks, y) == Hw(bs, x)
      && (x < i ==> y < o.index) && (x > i ==> y > o.index)
      && Hw(bs, x) + 2 * bs[x].units <= |mem|
      && forall w :: Hw(bs, x) <= w < Hw(bs, x) + 2 * bs[x].units ==> o.mem[w] == mem[w]
  {
    var fs := bs[i := Block(bs[i].units, false)];
    var lo, hi := CoalesceLo(fs, i), CoalesceHi(fs, i);
    var b := Block(Sum(fs[lo..hi]), false);
    FreeKeepsIndex(bs, i, x);
    WfBlock(mem, bs, x);
    WfBlock(mem, bs, i);
    FreeWf(mem, bs, i);
    var m1 := WriteTags(mem, Hw(bs, i), fs[i]);
    WriteTagsFrame(mem, Hw(bs, i), fs[i]);
    CoalesceWf(m1, fs, i);
    HwSlice(fs, lo, hi);
    WriteTagsFrame(m1, Hw(fs, lo), b);
    HwMark(bs, i, false, i);
    HwMark(bs, i, false, i + 1);
    if x < i {
      HwMonotone(bs, x, i);
    } else {
      HwMonotone(bs, i, x);
    }
  }

  /** Distinct blocks have distinct payload pointers. */
  lemma DistinctOff(mem: seq<nat>, bs: seq<Block>, x: nat, y: nat)
    requires Wf(mem, bs) && x < |bs| && y < |bs| && x != y
    ensures Off(bs, x) != Off(bs, y)
  {
    if x < y {
      WfBlock(mem, bs, x);
      HwMonotone(bs, x, y);
    } else {
      WfBlock(mem, bs, y);
      HwMonotone(bs, y, x);
    }
  }

  /** Distinct blocks lie inside the heap and do not overlap: one ends
      before the other begins. */
  lemma PayloadsApart(mem: seq<nat>, bs: seq<Block>, x: nat, y: nat)
    requires Wf(mem, bs) && x < |bs| && y < |bs| && x != y
    ensures 1 <= bs[x].units && Hw(bs, x) + 2 * bs[x].units <= |mem|
    ensures 1 <= bs[y].units && Hw(bs, y) + 2 * bs[y].units <= |mem|
    ensures Hw(bs, x) + 2 * bs[x].units <= Hw(bs, y) || Hw(bs, y) + 2 * bs[y].units <= Hw(bs, x)
  {
    WfBlock(mem, bs, x);
    WfBlock(mem, bs, y);
    if x < y {
      HwMonotone(bs, x, y);
    } else {
      HwMonotone(bs, y, x);
    }
  }

  // ---------------------------------------------------------------------
  // mm_realloc

  /** Where block x, allocated, is after the allocation step for asize:
      it moves up by the block a split adds when the first fit lies before
      it, and stays put otherwise (growth appends after every block). */
  ghost function Kept(bs: seq<Block>, asize: nat, x: nat): (j: nat)
    ensures j >= x
  {
    var f := FirstFit(bs, asize);
    if f < x && f < |bs| then x + |Split(bs[f].units, asize / 8)| - 1 else x
  }

  /** The allocation step leaves every other allocated block, and its
      words, where they were, at index Kept. */
  lemma AllocateKeeps(mem: seq<nat>, bs: seq<Block>, limit: nat, asize: nat, x: nat)
    requires Wf(mem, bs) && asize % 8 == 0 && 16 <= asize
    requires 1 <= x < |bs| && bs[x].alloc && Allocate(mem, bs, limit, asize).ptr != 0
    ensures var a := Allocate(mem, bs, limit, asize);
      var j := Kept(bs, asize, x);
      && 1 <= j < |a.blocks| && j != a.index
      && a.blocks[j] == bs[x] && Hw(a.blocks, j) == Hw(bs, x)
      && Hw(bs, x) + 2 * bs[x].units <= |mem|
      && forall w :: Hw(bs, x) <= w < Hw(bs, x) + 2 * bs[x].units ==> a.mem[w] == mem[w]
  {
    FirstFitNone(bs, asize);
    if FirstFit(bs, asize) < |bs| {
      AllocateKeepsFit(mem, bs, limit, asize, x);
    } else {
      AllocateKeepsGrown(mem, bs, limit, asize, x);
    }
  }

  /** AllocateKeeps when a block fits. */
  lemma AllocateKeepsFit(mem: seq<nat>, bs: seq<Block>, limit: nat, asize: nat, x: nat)
    requires Wf(mem, bs) && asize % 8 == 0 && 16 <= asize
    requires 1 <= x < |bs| && bs[x].alloc && FirstFit(bs, asize) < |bs|
    ensures var a := Allocate(mem, bs, limit, asize);
      var j := Kept(bs, asize, x);
      && 1 <= j < |a.blocks| && j != a.index
      && a.blocks[j] == bs[x] && Hw(a.blocks, j) == Hw(bs, x)
      && Hw(bs, x) + 2 * bs[x].units <= |mem|
      && forall w :: Hw(bs, x) <= w < Hw(bs, x) + 2 * bs[x].units ==> a.mem[w] == mem[w]
  {
    FirstFitNone(bs, asize);
    PlaceKeeps(mem, bs, FirstFit(bs, asize), asize / 8, x);
  }

  /** AllocateKeeps when the heap grows. */
  lemma AllocateKeepsGrown(mem: seq<nat>, bs: seq<Block>, limit: nat, asize: nat, x: nat)
    requires Wf(mem, bs) && asize % 8 == 0 && 16 <= asize
    requires 1 <= x < |bs| && bs[x].alloc && FirstFit(bs, asize) == |bs|
    requires Allocate(mem, bs, limit, asize).ptr != 0
    ensures var a := Allocate(mem, bs, limit, asize);
      var j := Kept(bs, asize, x);
      && 1 <= j < |a.blocks| && j != a.index
      && a.blocks[j] == bs[x] && Hw(a.blocks, j) == Hw(bs, x)
      && Hw(bs, x) + 2 * bs[x].units <= |mem|
      && forall w :: Hw(bs, x) <= w < Hw(bs, x) + 2 * bs[x].units ==> a.mem[w] == mem[w]
  {
    var u := Max(asize, 4096) / 8;
    var g := Grown(mem, bs, u);
    GrownKeeps(mem, bs, u, x);
    PlaceKeeps(g.mem, g.blocks, g.index, asize / 8, x);
  }

  /** Copying the payload of block j into the payload of the larger block
      k keeps the heap well formed. */
  lemma CopyPayloadWf(mem: seq<nat>, bs: seq<Block>, k: nat, j: nat)
    requires Wf(mem, bs) && 1 <= k < |bs| && j < |bs| && bs[j].units < bs[k].units
    ensures 1 <= bs[j].units
    ensures Hw(bs, k) + 1 + (2 * bs[j].units - 2) <= |mem| && Hw(bs, j) + 1 + (2 * bs[j].units - 2) <= |mem|
    ensures Wf(CopyWords(mem, Hw(bs, k) + 1, Hw(bs, j) + 1, 2 * bs[j].units - 2), bs)
  {
    WfBlock(mem, bs, k);
    WfBlock(mem, bs, j);
    CopyWf(mem, bs, k, Hw(bs, k) + 1, Hw(bs, j) + 1, 2 * bs[j].units - 2);
  }

  /** memcpy in handle_size_greater: the payload of the old block j (its
      size less header and footer) copied into the payload of the new
      block a.index. */
  ghost function MoveMem(a: Outcome, j: nat): (m: seq<nat>)
    requires Wf(a.mem, a.blocks) && 1 <= a.index < |a.blocks| && j < |a.blocks|
    requires a.blocks[j].units < a.blocks[a.index].units
    ensures Wf(m, a.blocks)
    ensures SameWords(m, Hw(a.blocks, a.index) + 1, a.mem, Hw(a.blocks, j) + 1, 2 * a.blocks[j].units - 2)
  {
    CopyPayloadWf(a.mem, a.blocks, a.index, j);
    CopyWords(a.mem, Hw(a.blocks, a.index) + 1, Hw(a.blocks, j) + 1, 2 * a.blocks[j].units - 2)
  }

  /** The allocation step leaves any run of words inside another
      allocated block as it was. */
  lemma AllocateKeepsWords(mem: seq<nat>, bs: seq<Block>, limit: nat, asize: nat, x: nat, p: nat, n: nat)
    requires Wf(mem, bs) && asize % 8 == 0 && 16 <= asize
    requires 1 <= x < |bs| && bs[x].alloc && Allocate(mem, bs, limit, asize).ptr != 0
    requires Hw(bs, x) <= p && p + n <= Hw(bs, x) + 2 * bs[x].units
    ensures SameWords(Allocate(mem, bs, limit, asize).mem, p, mem, p, n)
  {
    var a := Allocate(mem, bs, limit, asize);
    AllocateKeeps(mem, bs, limit, asize, x);
    WfBlock(a.mem, a.blocks, Kept(bs, asize, x));
    SameWordsIntro(a.mem, mem, p, n);
  }

  /** The end of handle_size_greater once the new block a.index is
      placed: the old block j's payload is moved into it, then j is freed. */
  ghost function MoveBlock(a: Outcome, j: nat): (o: Outcome)
    requires Wf(a.mem, a.blocks) && 1 <= a.index < |a.blocks| && a.ptr == Off(a.blocks, a.index)
    requires 1 <= j < |a.blocks| && j != a.index && a.blocks[j].alloc && a.blocks[a.index].alloc
    requires a.blocks[j].units < a.blocks[a.index].units
    ensures Wf(o.mem, o.blocks)
    ensures 1 <= o.index < |o.blocks| && o.ptr == a.ptr == Off(o.blocks, o.index)
    ensures o.blocks[o.index] == a.blocks[a.index]
  {
    var m2 := MoveMem(a, j);
    FreeKeepsBlock(m2, a.blocks, j, a.index);
    var fr := Free(m2, a.blocks, j);
    var y := FreeIndex(a.blocks, j, a.index);
    Outcome(fr.mem, fr.blocks, a.ptr, y)
  }

  /** The relocating branch of handle_size_greater: allocate a block of
      asize as mm_malloc does, move block i's payload into it and free
      block i; when the allocation fails the pointer is 0 and nothing
      changes. */
  ghost function Relocate(mem: seq<nat>, bs: seq<Block>, limit: nat, i: nat, asize: nat): (o: Outcome)
    requires Wf(mem, bs) && 1 <= i < |bs| && bs[i].alloc
    requires asize % 8 == 0 && 16 <= asize && Size(bs[i]) < asize
    ensures Wf(o.mem, o.blocks)
    ensures o.ptr != 0 ==>
      && 1 <= o.index < |o.blocks| && o.ptr == Off(o.blocks, o.index)
      && o.blocks[o.index].alloc && asize <= Size(o.blocks[o.index])
    ensures o.ptr == 0 ==> o.mem == mem && o.blocks == bs
  {
    var a := Allocate(mem, bs, limit, asize);
    if a.ptr == 0 then
      Outcome(mem, bs, 0, 0)
    else
      AllocateKeeps(mem, bs, limit, asize, i);
      MoveBlock(a, Kept(bs, asize, i))
  }

  /** Blocks i and i + 1 together span the sum of their sizes. */
  lemma SumPair(bs: seq<Block>, i: nat)
    requires i + 2 <= |bs|
    ensures Sum(bs[i..i + 2]) == bs[i].units + bs[i + 1].units
  {
    assert bs[i..i + 2] == [bs[i]] + [bs[i + 1]];
    SumConcat([bs[i]], [bs[i + 1]]);
    SumSingle(bs[i]);
    SumSingle(bs[i + 1]);
  }

  /** Growing block i in place over its free successor: its header is
      first rewritten as a free block spanning both, then place splits off
      au double words from that span. */
  lemma AbsorbWf(mem: seq<nat>, bs: seq<Block>, i: nat, au: nat)
    requires Wf(mem, bs) && 1 <= i && i + 1 < |bs| && 1 <= au <= bs[i].units + bs[i + 1].units
    ensures var u := bs[i].units + bs[i + 1].units;
      && 1 <= Hw(bs, i) && Hw(bs, i) + 2 * u <= |mem|
      && au <= MergeRange(bs, i, i + 2)[i].units
      && i < |PlaceBlocks(MergeRange(bs, i, i + 2), i, au)|
      && Hw(PlaceBlocks(MergeRange(bs, i, i + 2), i, au), i) == Hw(bs, i)
      && Wf(PlaceMem(mem[Hw(bs, i) := Pack(Size(Block(u, false)), 0)], Hw(bs, i), u, au),
            PlaceBlocks(MergeRange(bs, i, i + 2), i, au))
  {
    var u := bs[i].units + bs[i + 1].units;
    var h := Hw(bs, i);
    WfBlock(mem, bs, i);
    WfBlock(mem, bs, i + 1);
    SumPair(bs, i);
    var m1 := mem[h := Pack(Size(Block(u, false)), 0)];
    var m2 := PlaceMem(m1, h, u, au);
    PlaceMemFrame(m1, h, u, au);
    HwSlice(bs, i, i + 2);
    var mb := MergeRange(bs, i, i + 2);
    WfReplace(mem, m2, bs, i, i + 2, Split(u, au));
    assert PlaceBlocks(mb, i, au) == bs[..i] + Split(u, au) + bs[i + 2..];
    assert PlaceBlocks(mb, i, au)[..i] == bs[..i];
  }

  /** The in-place branch of handle_size_greater, for a free successor
      i + 1 with which block i holds asize bytes: block i's header is
      first rewritten as a free block spanning both, then place puts asize
      in that span. */
  ghost function Absorb(mem: seq<nat>, bs: seq<Block>, i: nat, asize: nat): (o: Outcome)
    requires Wf(mem, bs) && 1 <= i && i + 1 < |bs| && asize % 8 == 0 && 16 <= asize
    requires asize <= Size(bs[i]) + Size(bs[i + 1])
    ensures Wf(o.mem, o.blocks)
    ensures o.index == i && i < |o.blocks| && o.ptr == Off(o.blocks, i) == Off(bs, i)
    ensures o.blocks[i].alloc && asize <= Size(o.blocks[i])
  {
    var u := bs[i].units + bs[i + 1].units;
    AbsorbWf(mem, bs, i, asize / 8);
    var r := PlaceBlocks(MergeRange(bs, i, i + 2), i, asize / 8);
    Outcome(PlaceMem(mem[Hw(bs, i) := Pack(Size(Block(u, false)), 0)], Hw(bs, i), u, asize / 8),
            r, Off(bs, i), i)
  }

  /** Block i and its successor lie inside the heap, one after the other. */
  lemma PairBounds(mem: seq<nat>, bs: seq<Block>, i: nat)
    requires Wf(mem, bs) && 1 <= i && i + 1 < |bs|
    ensures 1 <= Hw(bs, i) && Hw(bs, i) + 2 * (bs[i].units + bs[i + 1].units) <= |mem|
  {
    WfBlock(mem, bs, i);
    WfBlock(mem, bs, i + 1);
  }

  /** Absorb's words, step by step: the header word h of block i gets the
      free tag of the u double words of i and its successor, then place. */
  lemma AbsorbSteps(mem: seq<nat>, bs: seq<Block>, i: nat, asize: nat, h: nat, u: nat, m2: seq<nat>)
    requires Wf(mem, bs) && 1 <= i && i + 1 < |bs| && asize % 8 == 0 && 16 <= asize
    requires asize <= Size(bs[i]) + Size(bs[i + 1])
    requires h == Hw(bs, i) && u == bs[i].units + bs[i + 1].units
    requires 1 <= h && h + 2 * u <= |mem| && asize / 8 <= u
    requires m2 == PlaceMem(mem[h := Pack(8 * u, 0)], h, u, asize / 8)
    ensures Absorb(mem, bs, i, asize).mem == m2
  {
    var v := Pack(Size(Block(u, false)), 0);
    assert v == Pack(8 * u, 0);
    assert Absorb(mem, bs, i, asize).mem == PlaceMem(mem[h := v], h, u, asize / 8);
  }

  /** The heap words Absorb leaves: block i's header rewritten, then place. */
  lemma AbsorbMem(mem: seq<nat>, bs: seq<Block>, i: nat, asize: nat, m2: seq<nat>, n: int, p1: int, p2: int)
    requires Wf(mem, bs) && 1 <= i && i + 1 < |bs| && asize % 8 == 0 && 16 <= asize
    requires asize <= Size(bs[i]) + Size(bs[i + 1])
    requires var u := bs[i].units + bs[i + 1].units;
      && Hw(bs, i) + 2 * u <= |mem| && 1 <= Hw(bs, i) && asize / 8 <= u
      && m2 == PlaceMem(mem[Hw(bs, i) := Pack(Size(Block(u, false)), 0)], Hw(bs, i), u, asize / 8)
    requires 0 <= n && n + 2 <= 2 * (asize / 8) && p1 == Hw(bs, i) + 1 && p2 == p1
    ensures Absorb(mem, bs, i, asize).mem == m2
    ensures SameWords(m2, p1, mem, p2, n)
  {
    var u := bs[i].units + bs[i + 1].units;
    RewriteKeepsWords(mem, Hw(bs, i), Pack(Size(Block(u, false)), 0), u, asize / 8, n, m2, p1, p2);
  }

  /** Block i can grow in place: its successor is free (not the epilogue)
      and the two together hold asize bytes. */
  ghost predicate CanAbsorb(bs: seq<Block>, i: nat, asize: nat)
    requires i < |bs|
  {
    i + 1 < |bs| && !bs[i + 1].alloc && asize <= Size(bs[i]) + Size(bs[i + 1])
  }

  /** handle_size_greater: block i grows over its successor when it can,
      and is relocated otherwise. */
  ghost function Expand(mem: seq<nat>, bs: seq<Block>, limit: nat, i: nat, asize: nat): (o: Outcome)
    requires Wf(mem, bs) && 1 <= i < |bs| && bs[i].alloc
    requires asize % 8 == 0 && 16 <= asize && Size(bs[i]) < asize
    ensures Wf(o.mem, o.blocks)
    ensures o.ptr != 0 ==>
      && 1 <= o.index < |o.blocks| && o.ptr == Off(o.blocks, o.index)
      && o.blocks[o.index].alloc && asize <= Size(o.blocks[o.index])
    ensures o.ptr == 0 ==> o.mem == mem && o.blocks == bs
  {
    if CanAbsorb(bs, i, asize) then
      Absorb(mem, bs, i, asize)
    else
      Relocate(mem, bs, limit, i, asize)
  }

  /** mm_realloc(ptr, size) on the allocated block i that ptr names:
      size 0 frees it and gives 0; otherwise, with asize = adjust(size),
      an equal size keeps the block, a smaller one places asize in it (a
      split when at least a double word is left over), and a greater one
      is handled by Expand. (A null ptr is mm_malloc.) */
  ghost function Realloc(mem: seq<nat>, bs: seq<Block>, limit: nat, i: nat, size: nat): (o: Outcome)
    requires Wf(mem, bs) && 1 <= i < |bs| && bs[i].alloc
    ensures Wf(o.mem, o.blocks)
    ensures o.ptr != 0 ==>
      && 1 <= o.index < |o.blocks| && o.ptr == Off(o.blocks, o.index)
      && o.blocks[o.index].alloc && size + 8 <= Size(o.blocks[o.index])
  {
    if size == 0 then
      Free(mem, bs, i)
    else
      var asize := Adjust(size);
      if asize == Size(bs[i]) then
        Outcome(mem, bs, Off(bs, i), i)
      else if asize < Size(bs[i]) then
        Placed(mem, bs, i, asize / 8)
      else
        Expand(mem, bs, limit, i, asize)
  }

  // ---------------------------------------------------------------------
  // What mm_realloc promises

  /** The copy step of a move, with its run named by the caller. */
  lemma MoveMemPayload(a: Outcome, j: nat, m2: seq<nat>, dst: int, src: int, n: int)
    requires Wf(a.mem, a.blocks) && 1 <= a.index < |a.blocks| && j < |a.blocks|
    requires a.blocks[j].units < a.blocks[a.index].units
    requires m2 == MoveMem(a, j) && dst == Hw(a.blocks, a.index) + 1
    requires src == Hw(a.blocks, j) + 1 && n == 2 * a.blocks[j].units - 2
    ensures SameWords(m2, dst, a.mem, src, n)
  {
  }

  /** The copy step of a move, with its runs named by the caller. */
  lemma MoveMemIs(a: Outcome, j: nat, d: nat, s: nat, n: nat)
    requires Wf(a.mem, a.blocks) && 1 <= a.index < |a.blocks| && j < |a.blocks|
    requires a.blocks[j].units < a.blocks[a.index].units
    requires d == Hw(a.blocks, a.index) + 1 && s == Hw(a.blocks, j) + 1 && n == 2 * a.blocks[j].units - 2
    requires d + n <= |a.mem| && s + n <= |a.mem|
    ensures MoveMem(a, j) == CopyWords(a.mem, d, s, n)
  {
  }

  /** A move ends with freeing block j in the copied words m2. */
  lemma MoveBlockIs(a: Outcome, j: nat, m2: seq<nat>)
    requires Wf(a.mem, a.blocks) && 1 <= a.index < |a.blocks| && a.ptr == Off(a.blocks, a.index)
    requires 1 <= j < |a.blocks| && j != a.index && a.blocks[j].alloc && a.blocks[a.index].alloc
    requires a.blocks[j].units < a.blocks[a.index].units
    requires m2 == MoveMem(a, j)
    ensures Wf(m2, a.blocks)
    ensures MoveBlock(a, j).mem == Free(m2, a.blocks, j).mem
    ensures MoveBlock(a, j).blocks == Free(m2, a.blocks, j).blocks
  {
  }

  /** Moving a block copies its payload into the new block: the n words
      after the old header reappear after the new one (o is the move's
      outcome, src and dst the first payload words). */
  lemma MoveBlockPayload(a: Outcome, j: nat, o: Outcome, src: nat, dst: nat, n: nat)
    requires Wf(a.mem, a.blocks) && 1 <= a.index < |a.blocks| && a.ptr == Off(a.blocks, a.index)
    requires 1 <= j < |a.blocks| && j != a.index && a.blocks[j].alloc && a.blocks[a.index].alloc
    requires a.blocks[j].units < a.blocks[a.index].units
    requires o == MoveBlock(a, j) && n == 2 * a.blocks[j].units - 2
    requires src == Hw(a.blocks, j) + 1 && dst == Hw(o.blocks, o.index) + 1
    ensures dst == Hw(a.blocks, a.index) + 1
    ensures SameWords(o.mem, dst, a.mem, src, n)
  {
    var h := Hw(a.blocks, a.index);
    var m2 := MoveMem(a, j);
    MoveMemPayload(a, j, m2, dst, src, n);
    WfBlock(a.mem, a.blocks, a.index);
    FreeKeepsBlock(m2, a.blocks, j, a.index);
    assert o.mem == Free(m2, a.blocks, j).mem;
    FreeKeepsWords(m2, a.blocks, j, a.index, dst, n);
    SameWordsTrans(o.mem, dst, m2, dst, a.mem, src, n);
  }

  /** Moving a block leaves the old block inside a free block. */
  lemma MoveBlockFrees(a: Outcome, j: nat)
    requires Wf(a.mem, a.blocks) && 1 <= a.index < |a.blocks| && a.ptr == Off(a.blocks, a.index)
    requires 1 <= j < |a.blocks| && j != a.index && a.blocks[j].alloc && a.blocks[a.index].alloc
    requires a.blocks[j].units < a.blocks[a.index].units
    ensures var o := MoveBlock(a, j);
      exists k :: 0 <= k < |o.blocks| && !o.blocks[k].alloc && Hw(o.blocks, k) <= Hw(a.blocks, j)
        && Hw(a.blocks, j) + 2 * a.blocks[j].units <= Hw(o.blocks, k) + 2 * o.blocks[k].units
  {
    var m2 := MoveMem(a, j);
    FreeMerges(m2, a.blocks, j);
    var fr := Free(m2, a.blocks, j);
    assert fr.blocks == MoveBlock(a, j).blocks;
    var k := fr.index;
  }

  /** Relocate's steps: the allocation succeeded, block i is block Kept
      of the allocated heap, and the move starts from there. */
  lemma RelocateIs(mem: seq<nat>, bs: seq<Block>, limit: nat, i: nat, asize: nat)
    requires Wf(mem, bs) && 1 <= i < |bs| && bs[i].alloc
    requires asize % 8 == 0 && 16 <= asize && Size(bs[i]) < asize
    requires Relocate(mem, bs, limit, i, asize).ptr != 0
    ensures var a := Allocate(mem, bs, limit, asize);
      var j := Kept(bs, asize, i);
      && a.ptr != 0 && 1 <= a.index < |a.blocks| && a.ptr == Off(a.blocks, a.index)
      && 1 <= j < |a.blocks| && j != a.index && a.blocks[j].alloc && a.blocks[a.index].alloc
      && a.blocks[j].units < a.blocks[a.index].units
      && a.blocks[j] == bs[i] && Hw(a.blocks, j) == Hw(bs, i)
      && Relocate(mem, bs, limit, i, asize) == MoveBlock(a, j)
  {
    AllocateKeeps(mem, bs, limit, asize, i);
  }

  /** A relocated block o holds the old payload (n words). */
  lemma RelocateKeepsPayload(mem: seq<nat>, bs: seq<Block>, limit: nat, i: nat, asize: nat, o: Outcome, n: int)
    requires Wf(mem, bs) && 1 <= i < |bs| && bs[i].alloc
    requires asize % 8 == 0 && 16 <= asize && Size(bs[i]) < asize
    requires o == Relocate(mem, bs, limit, i, asize) && o.ptr != 0 && n == 2 * bs[i].units - 2
    ensures 0 <= o.index < |o.blocks|
    ensures SameWords(o.mem, Hw(o.blocks, o.index) + 1, mem, Hw(bs, i) + 1, n)
  {
    var a := Allocate(mem, bs, limit, asize);
    var j := Kept(bs, asize, i);
    var src, dst := Hw(bs, i) + 1, Hw(o.blocks, o.index) + 1;
    RelocateIs(mem, bs, limit, i, asize);
    WfBlock(mem, bs, i);
    AllocateKeepsWords(mem, bs, limit, asize, i, src, n);
    MoveBlockPayload(a, j, o, src, dst, n);
    SameWordsTrans(o.mem, dst, a.mem, src, mem, src, n);
  }

  /** A relocated block is at a new address, and the old block lies inside
      a free block. */
  lemma RelocateFrees(mem: seq<nat>, bs: seq<Block>, limit: nat, i: nat, asize: nat)
    requires Wf(mem, bs) && 1 <= i < |bs| && bs[i].alloc
    requires asize % 8 == 0 && 16 <= asize && Size(bs[i]) < asize
    requires Relocate(mem, bs, limit, i, asize).ptr != 0
    ensures var o := Relocate(mem, bs, limit, i, asize);
      && o.ptr != Off(bs, i)
      && exists k :: 0 <= k < |o.blocks| && !o.blocks[k].alloc && Hw(o.blocks, k) <= Hw(bs, i)
           && Hw(bs, i) + 2 * bs[i].units <= Hw(o.blocks, k) + 2 * o.blocks[k].units
  {
    var a := Allocate(mem, bs, limit, asize);
    var j := Kept(bs, asize, i);
    RelocateIs(mem, bs, limit, i, asize);
    MoveBlockFrees(a, j);
    DistinctOff(a.mem, a.blocks, j, a.index);
  }

  /** The in-place growth o keeps the old payload (n words) where it was. */
  lemma AbsorbKeepsPayload(mem: seq<nat>, bs: seq<Block>, i: nat, asize: nat, o: Outcome, n: int)
    requires Wf(mem, bs) && 1 <= i && i + 1 < |bs| && asize % 8 == 0 && 16 <= asize
    requires Size(bs[i]) < asize <= Size(bs[i]) + Size(bs[i + 1])
    requires o == Absorb(mem, bs, i, asize) && n == 2 * bs[i].units - 2
    ensures 0 <= o.index < |o.blocks| && Hw(o.blocks, o.index) == Hw(bs, i)
    ensures SameWords(o.mem, Hw(o.blocks, o.index) + 1, mem, Hw(bs, i) + 1, n)
  {
    var u := bs[i].units + bs[i + 1].units;
    AbsorbWf(mem, bs, i, asize / 8);
    WfBlock(mem, bs, i);
    var dst, src := Hw(o.blocks, o.index) + 1, Hw(bs, i) + 1;
    assert dst == src;
    AbsorbMem(mem, bs, i, asize, o.mem, n, dst, src);
  }

  /** Rewriting the header of a span and then placing au double words in
      it keeps the n payload words that fit in the first block. */
  lemma RewriteKeepsWords(mem: seq<nat>, h: nat, v: nat, u: nat, au: nat, n: int, m2: seq<nat>, p1: int, p2: int)
    requires 1 <= h && 1 <= au <= u && h + 2 * u <= |mem| && 0 <= n && n + 2 <= 2 * au
    requires m2 == PlaceMem(mem[h := v], h, u, au) && p1 == h + 1 && p2 == h + 1
    ensures SameWords(m2, p1, mem, p2, n)
  {
    PlaceMemFrame(mem[h := v], h, u, au);
    SameWordsIntro(m2, mem, h + 1, n);
  }

  /** Shrinking block i in place to au double words (the outcome o) keeps
      the first n = 2 * au - 2 payload words. */
  lemma ShrinkKeepsPayload(mem: seq<nat>, bs: seq<Block>, i: nat, au: nat, o: Outcome, n: int)
    requires Wf(mem, bs) && 1 <= i < |bs| && 1 <= au <= bs[i].units
    requires o == Placed(mem, bs, i, au)
    requires n == 2 * au - 2
    ensures 0 <= o.index < |o.blocks| && Hw(o.blocks, o.index) == Hw(bs, i)
    ensures SameWords(o.mem, Hw(o.blocks, o.index) + 1, mem, Hw(bs, i) + 1, n)
  {
    PlaceWf(mem, bs, i, au);
    PlaceMemFrame(mem, Hw(bs, i), bs[i].units, au);
    assert o.mem == PlaceMem(mem, Hw(bs, i), bs[i].units, au);
    var dst, src := Hw(o.blocks, o.index) + 1, Hw(bs, i) + 1;
    assert dst == src;
    SameWordsIntro(o.mem, mem, src, n);
  }

  /** mm_realloc keeps the payload: the block o it returns, for a request
      of size > 0 bytes whose adjusted size is au double words, starts with
      the old payload, as far as the lesser of the old and the new block
      size (less header and footer) reaches. */
  lemma ReallocKeepsPayload(mem: seq<nat>, bs: seq<Block>, limit: nat, i: nat, size: nat, au: nat, o: Outcome)
    requires Wf(mem, bs) && 1 <= i < |bs| && bs[i].alloc && 0 < size && 8 * au == Adjust(size)
    requires o == Realloc(mem, bs, limit, i, size) && o.ptr != 0
    ensures 0 <= o.index < |o.blocks|
    ensures SameWords(o.mem, Hw(o.blocks, o.index) + 1, mem, Hw(bs, i) + 1,
                      2 * (if bs[i].units <= au then bs[i].units else au) - 2)
  {
    var asize := Adjust(size);
    assert asize / 8 == au;
    var n := 2 * (if bs[i].units <= au then bs[i].units else au) - 2;
    WfBlock(mem, bs, i);
    if asize == Size(bs[i]) {
      assert o == Outcome(mem, bs, Off(bs, i), i);
      SameWordsIntro(mem, mem, Hw(bs, i) + 1, n);
    } else if asize < Size(bs[i]) {
      ShrinkKeepsPayload(mem, bs, i, au, o, n);
    } else if CanAbsorb(bs, i, asize) {
      AbsorbKeepsPayload(mem, bs, i, asize, o, n);
    } else {
      RelocateKeepsPayload(mem, bs, limit, i, asize, o, n);
    }
  }

  /** mm_realloc keeps the block where it is when the new size fits in it,
      or when it fits together with a free successor: the same pointer
      and index, the blocks before it untouched, the heap no larger; at
      the same size nothing at all changes. */
  lemma ReallocInPlace(mem: seq<nat>, bs: seq<Block>, limit: nat, i: nat, size: nat)
    requires Wf(mem, bs) && 1 <= i < |bs| && bs[i].alloc && 0 < size
    requires Adjust(size) <= Size(bs[i]) || CanAbsorb(bs, i, Adjust(size))
    ensures var o := Realloc(mem, bs, limit, i, size);
      && o.ptr == Off(bs, i) && o.index == i && |o.mem| == |mem|
      && o.blocks == (if Adjust(size) == Size(bs[i]) then bs
                      else if Adjust(size) < Size(bs[i]) then PlaceBlocks(bs, i, Adjust(size) / 8)
                      else PlaceBlocks(MergeRange(bs, i, i + 2), i, Adjust(size) / 8))
      && (Adjust(size) == Size(bs[i]) ==> o.mem == mem)
  {
    var asize := Adjust(size);
    if Size(bs[i]) < asize {
      AbsorbWf(mem, bs, i, asize / 8);
      WfBlock(mem, bs, i);
    }
  }

  /** mm_realloc fails (returns 0) for a size > 0 exactly when the block
      must move and no block can be allocated for it; p and the heap are
      then left as they were. */
  lemma ReallocNull(mem: seq<nat>, bs: seq<Block>, limit: nat, i: nat, size: nat)
    requires Wf(mem, bs) && 1 <= i < |bs| && bs[i].alloc && 0 < size
    ensures var o := Realloc(mem, bs, limit, i, size);
      var asize := Adjust(size);
      && (o.ptr == 0 <==>
           && Size(bs[i]) < asize && !CanAbsorb(bs, i, asize)
           && (forall j :: 0 <= j < |bs| ==> !Fits(bs[j], asize))
           && 4 * |mem| + Max(asize, 4096) > limit)
      && (o.ptr == 0 ==> o.mem == mem && o.blocks == bs)
  {
    var asize := Adjust(size);
    if Size(bs[i]) < asize && !CanAbsorb(bs, i, asize) {
      AllocateNull(mem, bs, limit, asize);
      if Allocate(mem, bs, limit, asize).ptr != 0 {
        RelocateIs(mem, bs, limit, i, asize);
      }
    }
  }

  /** When mm_realloc moves the block, the new block is the one the
      allocation step returns, at a new address, and the old block ends up
      inside a free block. */
  lemma ReallocMoves(mem: seq<nat>, bs: seq<Block>, limit: nat, i: nat, size: nat)
    requires Wf(mem, bs) && 1 <= i < |bs| && bs[i].alloc && 0 < size
    requires Size(bs[i]) < Adjust(size) && !CanAbsorb(bs, i, Adjust(size))
    requires Realloc(mem, bs, limit, i, size).ptr != 0
    ensures var o := Realloc(mem, bs, limit, i, size);
      && o.ptr == Allocate(mem, bs, limit, Adjust(size)).ptr != Off(bs, i)
      && exists k :: 0 <= k < |o.blocks| && !o.blocks[k].alloc && Hw(o.blocks, k) <= Hw(bs, i)
           && Hw(bs, i) + 2 * bs[i].units <= Hw(o.blocks, k) + 2 * o.blocks[k].units
  {
    RelocateIs(mem, bs, limit, i, Adjust(size));
    RelocateFrees(mem, bs, limit, i, Adjust(size));
  }

  /** mm_realloc(p, 0) frees p: it returns 0 and p's block ends up inside
      a free block. */
  lemma ReallocZero(mem: seq<nat>, bs: seq<Block>, limit: nat, i: nat)
    requires Wf(mem, bs) && 1 <= i < |bs| && bs[i].alloc
    ensures var o := Realloc(mem, bs, limit, i, 0);
      && o.ptr == 0 && !o.blocks[o.index].alloc
      && Hw(o.blocks, o.index) <= Hw(bs, i)
      && Hw(bs, i) + 2 * bs[i].units <= Hw(o.blocks, o.index) + 2 * o.blocks[o.index].units
  {
    FreeMerges(mem, bs, i);
  }

  // ---------------------------------------------------------------------
  // mm_realloc leaves the other blocks alone

  /** Block x of bs, with all its words, is still a block of the outcome o,
      at the same address, and is not the block o returns. */
  ghost predicate Untouched(mem: seq<nat>, bs: seq<Block>, x: nat, o: Outcome)
    requires x < |bs|
  {
    && Hw(bs, x) + 2 * bs[x].units <= |mem|
    && Hw(bs, x) + 2 * bs[x].units <= |o.mem|
    && (exists j :: 0 <= j < |o.blocks| && j != o.index && o.blocks[j] == bs[x] && Hw(o.blocks, j) == Hw(bs, x))
    && forall w :: Hw(bs, x) <= w < Hw(bs, x) + 2 * bs[x].units ==> o.mem[w] == mem[w]
  }

  /** place in block f leaves every other block untouched. */
  lemma PlacedKeeps(mem: seq<nat>, bs: seq<Block>, f: nat, au: nat, x: nat)
    requires Wf(mem, bs) && 1 <= f < |bs| && 1 <= au <= bs[f].units && x < |bs| && x != f
    ensures Untouched(mem, bs, x, Placed(mem, bs, f, au))
  {
    var o := Placed(mem, bs, f, au);
    PlaceKeeps(mem, bs, f, au, x);
    var y := if x < f then x else x + |Split(bs[f].units, au)| - 1;
    assert o.blocks[y] == bs[x];
  }

  /** The blocks after growing block i in place over its successor: the
      pair's span, split as place splits it. */
  lemma AbsorbBlocks(bs: seq<Block>, i: nat, au: nat)
    requires 1 <= i && i + 1 < |bs| && 1 <= au <= bs[i].units + bs[i + 1].units
    ensures var u := bs[i].units + bs[i + 1].units;
      && au <= MergeRange(bs, i, i + 2)[i].units
      && PlaceBlocks(MergeRange(bs, i, i + 2), i, au) == bs[..i] + Split(u, au) + bs[i + 2..]
      && Sum(Split(u, au)) == Sum(bs[i..i + 2])
  {
    SumPair(bs, i);
  }

  /** Where block x is after growing block i in place over block i + 1:
      blocks before i stay, and blocks after i + 1 shift by the one block
      the merge removes and the one a split adds. */
  lemma AbsorbIndex(bs: seq<Block>, i: nat, au: nat, x: nat)
    requires 1 <= i && i + 1 < |bs| && 1 <= au <= bs[i].units + bs[i + 1].units
    requires x < |bs| && x != i && x != i + 1
    ensures var r := bs[..i] + Split(bs[i].units + bs[i + 1].units, au) + bs[i + 2..];
      var y := if x < i then x else x - 2 + |Split(bs[i].units + bs[i + 1].units, au)|;
      && y < |r| && y != i && r[y] == bs[x] && Hw(r, y) == Hw(bs, x)
  {
    var sp := Split(bs[i].units + bs[i + 1].units, au);
    SumPair(bs, i);
    if x < i {
      SpliceBefore(bs, i, i + 2, sp, x);
    } else {
      SpliceAfter(bs, i, i + 2, sp, x);
    }
  }

  /** Rewriting the header word h of a span of u double words and then
      placing in it changes no word outside the span. */
  lemma RewritePlaceFrame(mem: seq<nat>, h: nat, v: nat, u: nat, au: nat)
    requires 1 <= h && 1 <= au <= u && h + 2 * u <= |mem|
    ensures forall w :: 0 <= w < |mem| && (w < h || h + 2 * u <= w) ==> PlaceMem(mem[h := v], h, u, au)[w] == mem[w]
  {
    PlaceMemFrame(mem[h := v], h, u, au);
  }

  /** Growing block i in place writes only words of blocks i and i + 1. */
  lemma AbsorbKeepsWords(mem: seq<nat>, bs: seq<Block>, i: nat, asize: nat, x: nat)
    requires Wf(mem, bs) && 1 <= i && i + 1 < |bs| && asize % 8 == 0 && 16 <= asize
    requires asize <= Size(bs[i]) + Size(bs[i + 1])
    requires x < |bs| && x != i && x != i + 1
    ensures Hw(bs, x) + 2 * bs[x].units <= |mem|
    ensures var o := Absorb(mem, bs, i, asize);
      forall w :: Hw(bs, x) <= w < Hw(bs, x) + 2 * bs[x].units ==> o.mem[w] == mem[w]
  {
    var h, u, au := Hw(bs, i), bs[i].units + bs[i + 1].units, asize / 8;
    PairBounds(mem, bs, i);
    var v := Pack(8 * u, 0);
    AbsorbSteps(mem, bs, i, asize, h, u, PlaceMem(mem[h := v], h, u, au));
    RewritePlaceFrame(mem, h, v, u, au);
    WfBlock(mem, bs, x);
    HwNext(bs, i);
    if x < i {
      HwMonotone(bs, x, i);
    } else {
      HwMonotone(bs, i + 1, x);
    }
  }

  /** Growing block i in place keeps every block but i and i + 1 at its
      address. */
  lemma AbsorbKeepsBlock(mem: seq<nat>, bs: seq<Block>, i: nat, asize: nat, x: nat)
    requires Wf(mem, bs) && 1 <= i && i + 1 < |bs| && asize % 8 == 0 && 16 <= asize
    requires asize <= Size(bs[i]) + Size(bs[i + 1])
    requires x < |bs| && x != i && x != i + 1
    ensures var o := Absorb(mem, bs, i, asize);
      exists j :: 0 <= j < |o.blocks| && j != o.index && o.blocks[j] == bs[x] && Hw(o.blocks, j) == Hw(bs, x)
  {
    var o := Absorb(mem, bs, i, asize);
    var au := asize / 8;
    var sp := Split(bs[i].units + bs[i + 1].units, au);
    AbsorbBlocks(bs, i, au);
    AbsorbIndex(bs, i, au, x);
    var y := if x < i then x else x - 2 + |sp|;
    assert o.blocks[y] == bs[x];
  }

  /** The copy of a move writes only into the new block: block x, any
      other block, keeps its words. */
  lemma MoveMemKeeps(a: Outcome, j: nat, x: nat)
    requires Wf(a.mem, a.blocks) && 1 <= a.index < |a.blocks| && j < |a.blocks|
    requires a.blocks[j].units < a.blocks[a.index].units
    requires x < |a.blocks| && x != a.index
    ensures Hw(a.blocks, x) + 2 * a.blocks[x].units <= |a.mem|
    ensures forall w :: Hw(a.blocks, x) <= w < Hw(a.blocks, x) + 2 * a.blocks[x].units ==> MoveMem(a, j)[w] == a.mem[w]
  {
    var d, s, n := Hw(a.blocks, a.index) + 1, Hw(a.blocks, j) + 1, 2 * a.blocks[j].units - 2;
    PayloadsApart(a.mem, a.blocks, x, a.index);
    WfBlock(a.mem, a.blocks, j);
    MoveMemIs(a, j, d, s, n);
  }

  /** Relocating block i leaves every other allocated block untouched: the
      allocation step keeps it, the copy writes only into the new block,
      and freeing block i keeps it. */
  lemma RelocateKeeps(mem: seq<nat>, bs: seq<Block>, limit: nat, i: nat, asize: nat, x: nat)
    requires Wf(mem, bs) && 1 <= i < |bs| && bs[i].alloc
    requires asize % 8 == 0 && 16 <= asize && Size(bs[i]) < asize
    requires 1 <= x < |bs| && x != i && bs[x].alloc
    requires Relocate(mem, bs, limit, i, asize).ptr != 0
    ensures Untouched(mem, bs, x, Relocate(mem, bs, limit, i, asize))
  {
    var o := Relocate(mem, bs, limit, i, asize);
    var a := Allocate(mem, bs, limit, asize);
    var ji, jx := Kept(bs, asize, i), Kept(bs, asize, x);
    RelocateIs(mem, bs, limit, i, asize);
    AllocateKeeps(mem, bs, limit, asize, x);
    DistinctOff(mem, bs, x, i);
    DistinctOff(a.mem, a.blocks, jx, a.index);
    var m2 := MoveMem(a, ji);
    MoveMemKeeps(a, ji, jx);
    MoveBlockIs(a, ji, m2);
    FreeKeeps(m2, a.blocks, ji, jx);
    var y := FreeIndex(a.blocks, ji, jx);
    assert o.blocks[y] == bs[x];
  }

  /** mm_realloc leaves every other allocated block, and its words, where
      they were. */
  lemma ReallocKeeps(mem: seq<nat>, bs: seq<Block>, limit: nat, i: nat, size: nat, x: nat)
    requires Wf(mem, bs) && 1 <= i < |bs| && bs[i].alloc
    requires 1 <= x < |bs| && x != i && bs[x].alloc
    requires Realloc(mem, bs, limit, i, size).ptr != 0
    ensures Untouched(mem, bs, x, Realloc(mem, bs, limit, i, size))
  {
    var o := Realloc(mem, bs, limit, i, size);
    var asize := Adjust(size);
    if asize == Size(bs[i]) {
      assert o == Outcome(mem, bs, Off(bs, i), i);
      WfBlock(mem, bs, x);
      assert o.blocks[x] == bs[x];
    } else if asize < Size(bs[i]) {
      assert o == Placed(mem, bs, i, asize / 8);
      PlacedKeeps(mem, bs, i, asize / 8, x);
    } else if CanAbsorb(bs, i, asize) {
      assert o == Absorb(mem, bs, i, asize);
      AbsorbKeepsWords(mem, bs, i, asize, x);
      AbsorbKeepsBlock(mem, bs, i, asize, x);
    } else {
      assert o == Relocate(mem, bs, limit, i, asize);
      RelocateKeeps(mem, bs, limit, i, asize, x);
    }
  }
}
