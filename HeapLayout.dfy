/** The heap seen as the list of its blocks.

    The allocator keeps no list of blocks: the blocks are implicit in the
    header and footer words. This module names that list (block 0 is the
    prologue, whose header is word 1 and whose payload pointer is byte 8),
    says when a sequence of words lays it out (Wf), and proves what the
    allocator's operations need: where each block's header and footer are,
    how a local rewrite of a few words turns one well-formed heap into
    another, and how first fit, placement and coalescing act on the list.

    Block sizes in the list are counted in double words (8 bytes), the unit
    every block size is a multiple of; Size gives the size in bytes, the
    number the header stores. Positions are word indices into the heap. */
module HeapLayout {
  import opened BlockFormat

  /** One block: its total size in double words (header, payload and
      footer) and whether it is allocated. */
  datatype Block = Block(units: nat, alloc: bool)

  /** The size of b in bytes, as GET_SIZE reads it from b's header. */
  function Size(b: Block): (n: nat)
  {
    8 * b.units
  }

  /** The prologue: an allocated block of one double word, header and footer only. */
  const Prologue := Block(1, true)

  /** The allocated bit as the source stores it. */
  function Bit(alloc: bool): (n: nat)
  {
    if alloc then 1 else 0
  }

  /** The word held by the header and the footer of b: its size in bytes
      with the allocated bit in bit 0 (PACK, see TagIsPack). */
  function Tag(b: Block): (w: nat)
  {
    8 * b.units + Bit(b.alloc)
  }

  /** The tag is PACK(size, alloc), and GET_SIZE and GET_ALLOC read back
      the block's size and bit. */
  lemma TagIsPack(b: Block)
    ensures Tag(b) == Pack(Size(b), Bit(b.alloc))
    ensures GetSize(Tag(b)) == Size(b) && GetAlloc(Tag(b)) == Bit(b.alloc)
  {
    LowBits(b.units, 0);
    LowBits(b.units, Bit(b.alloc));
    PackRoundTrip(Size(b), Bit(b.alloc));
  }

  /** The number of double words a list of blocks spans. */
  function Sum(bs: seq<Block>): (n: nat)
    decreases |bs|
  {
    if bs == [] then 0 else bs[0].units + Sum(bs[1..])
  }

  /** The header word of block i of a heap (the prologue's header is word 1,
      after the padding word); Hw(bs, |bs|) is the epilogue header. */
  function Hw(bs: seq<Block>, i: nat): (h: nat)
    requires i <= |bs|
  {
    1 + 2 * Sum(bs[..i])
  }

  /** The payload pointer (byte offset) of block i: the byte after its header. */
  function Off(bs: seq<Block>, i: nat): (p: nat)
    requires i <= |bs|
  {
    4 * Hw(bs, i) + 4
  }

  /** Block b lies with its header in word h: it spans at least one double
      word, lies inside the heap, and its header and footer both hold Tag(b). */
  ghost predicate BlockAt(mem: seq<nat>, h: int, b: Block)
  {
    && 1 <= h && 1 <= b.units
    && h + 2 * b.units <= |mem|
    && mem[h] == Tag(b)
    && mem[h + 2 * b.units - 1] == Tag(b)
  }

  /** The blocks bs lie one after the other from header word h. */
  ghost predicate Layout(mem: seq<nat>, h: int, bs: seq<Block>)
    decreases |bs|
  {
    bs == [] || (BlockAt(mem, h, bs[0]) && Layout(mem, h + 2 * bs[0].units, bs[1..]))
  }

  /** The heap mem is well formed with blocks bs: a zero padding word, then
      the blocks from the prologue on, each with matching header and footer,
      and a size-0 allocated epilogue header in the last word. */
  ghost predicate Wf(mem: seq<nat>, bs: seq<Block>)
  {
    && |bs| >= 1 && bs[0] == Prologue
    && |mem| == 2 + 2 * Sum(bs)
    && mem[0] == 0
    && Layout(mem, 1, bs)
    && mem[|mem| - 1] == Pack(0, 1)
  }

  /** No two free blocks are next to each other. */
  ghost predicate NoAdjacentFree(bs: seq<Block>)
  {
    forall j :: 0 < j < |bs| ==> bs[j - 1].alloc || bs[j].alloc
  }

  /** The n words of m1 from word p1 on are the n words of m2 from word p2
      on, compared from the last one back (SameWordsAll gives the pointwise
      form). */
  ghost predicate SameWords(m1: seq<nat>, p1: int, m2: seq<nat>, p2: int, n: int)
    decreases n
  {
    && 0 <= p1 && 0 <= p2 && 0 <= n && p1 + n <= |m1| && p2 + n <= |m2|
    && (n == 0 || (m1[p1 + n - 1] == m2[p2 + n - 1] && SameWords(m1, p1, m2, p2, n - 1)))
  }

  /** mem2 holds the same words as mem1 except in words lo to hi - 1. */
  ghost predicate SameOutside(mem1: seq<nat>, mem2: seq<nat>, lo: int, hi: int)
  {
    && |mem2| == |mem1|
    && forall w :: 0 <= w < |mem1| && (w < lo || hi <= w) ==> mem2[w] == mem1[w]
  }

  /** Two sequences that agree word by word from p on hold the same run there. */
  lemma {:induction false} SameWordsIntro(m1: seq<nat>, m2: seq<nat>, p: int, n: int)
    requires 0 <= p && 0 <= n && p + n <= |m1| && p + n <= |m2|
    requires forall w :: p <= w < p + n ==> m1[w] == m2[w]
    ensures SameWords(m1, p, m2, p, n)
    decreases n
  {
    if 0 < n {
      SameWordsIntro(m1, m2, p, n - 1);
    }
  }

  /** Conversely, the same run is the same words, word by word. */
  lemma {:induction false} SameWordsAll(m1: seq<nat>, p1: int, m2: seq<nat>, p2: int, n: int)
    requires SameWords(m1, p1, m2, p2, n)
    ensures forall w :: p1 <= w < p1 + n ==> m1[w] == m2[w - p1 + p2]
    decreases n
  {
    if 0 < n {
      SameWordsAll(m1, p1, m2, p2, n - 1);
    }
  }

  /** Word runs compose: a run of m1 that is a run of m2, which in turn is
      a run of m3, is that run of m3. */
  lemma {:induction false} SameWordsTrans(m1: seq<nat>, p1: int, m2: seq<nat>, p2: int, m3: seq<nat>, p3: int, n: int)
    requires SameWords(m1, p1, m2, p2, n) && SameWords(m2, p2, m3, p3, n)
    ensures SameWords(m1, p1, m3, p3, n)
    decreases n
  {
    if n > 0 {
      SameWordsTrans(m1, p1, m2, p2, m3, p3, n - 1);
    }
  }

  /** Writing a word outside a run keeps the run. */
  lemma {:induction false} SameWordsUpdate(m1: seq<nat>, p1: int, m2: seq<nat>, p2: int, n: int, x: int, v: nat)
    requires SameWords(m1, p1, m2, p2, n) && 0 <= x < |m1| && (x < p1 || p1 + n <= x)
    ensures SameWords(m1[x := v], p1, m2, p2, n)
    decreases n
  {
    if n > 0 {
      SameWordsUpdate(m1, p1, m2, p2, n - 1, x, v);
    }
  }

  // ---------------------------------------------------------------------
  // Sums and positions

  lemma {:induction false} SumConcat(xs: seq<Block>, ys: seq<Block>)
    ensures Sum(xs + ys) == Sum(xs) + Sum(ys)
    decreases |xs|
  {
    if xs == [] {
      assert xs + ys == ys;
    } else {
      assert (xs + ys)[1..] == xs[1..] + ys;
      SumConcat(xs[1..], ys);
    }
  }

  /** The header of the next block follows this block's footer. */
  lemma HwNext(bs: seq<Block>, i: nat)
    requires i < |bs|
    ensures Hw(bs, i + 1) == Hw(bs, i) + 2 * bs[i].units
  {
    assert bs[..i + 1] == bs[..i] + [bs[i]];
    SumConcat(bs[..i], [bs[i]]);
  }

  /** Blocks lo to hi - 1 span exactly the words between their headers. */
  lemma HwSlice(bs: seq<Block>, lo: nat, hi: nat)
    requires lo <= hi <= |bs|
    ensures Hw(bs, hi) == Hw(bs, lo) + 2 * Sum(bs[lo..hi])
  {
    assert bs[..hi] == bs[..lo] + bs[lo..hi];
    SumConcat(bs[..lo], bs[lo..hi]);
  }

  /** Headers grow with the index; a block ends before any later one starts. */
  lemma HwMonotone(bs: seq<Block>, i: nat, j: nat)
    requires i < j <= |bs|
    ensures Hw(bs, i) + 2 * bs[i].units <= Hw(bs, j)
  {
    HwNext(bs, i);
    HwSlice(bs, i + 1, j);
  }

  // ---------------------------------------------------------------------
  // Layouts

  /** A layout of xs + ys is a layout of xs followed by one of ys. */
  lemma {:induction false} LayoutSplit(mem: seq<nat>, h: int, xs: seq<Block>, ys: seq<Block>)
    ensures Layout(mem, h, xs + ys) <==> Layout(mem, h, xs) && Layout(mem, h + 2 * Sum(xs), ys)
    decreases |xs|
  {
    if xs == [] {
      assert xs + ys == ys;
    } else {
      assert (xs + ys)[0] == xs[0];
      assert (xs + ys)[1..] == xs[1..] + ys;
      LayoutSplit(mem, h + 2 * xs[0].units, xs[1..], ys);
    }
  }

  /** A layout depends only on the words it spans. */
  lemma {:induction false} LayoutFrame(mem1: seq<nat>, mem2: seq<nat>, h: int, bs: seq<Block>)
    requires Layout(mem1, h, bs)
    requires |mem1| <= |mem2|
    requires forall w :: 0 <= w < |mem1| && h <= w < h + 2 * Sum(bs) ==> mem2[w] == mem1[w]
    ensures Layout(mem2, h, bs)
    decreases |bs|
  {
    if bs != [] {
      var b := bs[0];
      assert Sum(bs) == b.units + Sum(bs[1..]);
      assert mem2[h] == mem1[h];
      assert mem2[h + 2 * b.units - 1] == mem1[h + 2 * b.units - 1];
      LayoutFrame(mem1, mem2, h + 2 * b.units, bs[1..]);
    }
  }

  /** Block k of a layout sits after the blocks before it. */
  lemma LayoutBlock(mem: seq<nat>, h: int, bs: seq<Block>, k: nat)
    requires Layout(mem, h, bs) && k < |bs|
    ensures BlockAt(mem, h + 2 * Sum(bs[..k]), bs[k])
  {
    assert bs == bs[..k] + bs[k..];
    LayoutSplit(mem, h, bs[..k], bs[k..]);
  }

  /** In a well-formed heap block k has its header at Hw(bs, k), and
      Hw(bs, |bs|) is the last word, the epilogue header. */
  lemma WfBlock(mem: seq<nat>, bs: seq<Block>, k: nat)
    requires Wf(mem, bs) && k <= |bs|
    ensures k < |bs| ==> BlockAt(mem, Hw(bs, k), bs[k]) && Hw(bs, k + 1) == Hw(bs, k) + 2 * bs[k].units
    ensures k == |bs| ==> Hw(bs, k) == |mem| - 1
  {
    if k < |bs| {
      LayoutBlock(mem, 1, bs, k);
      HwNext(bs, k);
    } else {
      assert bs[..k] == bs;
    }
  }

  // ---------------------------------------------------------------------
  // The address macros on a well-formed heap

  /** Reading the header before Off(bs, k) gives block k's size and bit,
      and NEXT_BLKP and FTRP land on the next block and on block k's footer;
      past the last block the header read is the size-0 allocated epilogue. */
  lemma NextBlock(mem: seq<nat>, bs: seq<Block>, k: nat)
    requires Wf(mem, bs) && k <= |bs|
    ensures Off(bs, k) % 8 == 0 && 8 <= Off(bs, k) <= 4 * |mem|
    ensures InHeap(mem, Hdrp(Off(bs, k)))
    ensures Get(mem, Hdrp(Off(bs, k))) == mem[Hw(bs, k)]
    ensures k < |bs| ==>
      && GetSize(Get(mem, Hdrp(Off(bs, k)))) == Size(bs[k])
      && GetAlloc(Get(mem, Hdrp(Off(bs, k)))) == Bit(bs[k].alloc)
      && NextBlkp(mem, Off(bs, k)) == Off(bs, k + 1)
      && Ftrp(mem, Off(bs, k)) == Off(bs, k) + Size(bs[k]) - 8
      && InHeap(mem, Ftrp(mem, Off(bs, k)))
      && Get(mem, Ftrp(mem, Off(bs, k))) == Tag(bs[k])
    ensures k == |bs| ==>
      && GetSize(Get(mem, Hdrp(Off(bs, k)))) == 0
      && GetAlloc(Get(mem, Hdrp(Off(bs, k)))) == 1
  {
    WfBlock(mem, bs, k);
    var h := Hw(bs, k);
    assert Off(bs, k) == 8 * (Sum(bs[..k]) + 1);
    assert Hdrp(Off(bs, k)) / 4 == h;
    if k < |bs| {
      TagIsPack(bs[k]);
      assert (Off(bs, k) + Size(bs[k]) - 8) / 4 == h + 2 * bs[k].units - 1;
    } else {
      PackRoundTrip(0, 1);
    }
  }

  /** Reading the word before the header of Off(bs, k) gives block k - 1's
      footer, so PREV_BLKP lands on block k - 1 (for k = |bs|, from the
      epilogue back to the last block). */
  lemma PrevBlock(mem: seq<nat>, bs: seq<Block>, k: nat)
    requires Wf(mem, bs) && 1 <= k <= |bs|
    ensures InHeap(mem, Off(bs, k) - 8)
    ensures GetSize(Get(mem, Off(bs, k) - 8)) == Size(bs[k - 1])
    ensures GetAlloc(Get(mem, Off(bs, k) - 8)) == Bit(bs[k - 1].alloc)
    ensures PrevBlkp(mem, Off(bs, k)) == Off(bs, k - 1)
  {
    WfBlock(mem, bs, k - 1);
    TagIsPack(bs[k - 1]);
    assert (Off(bs, k) - 8) / 4 == Hw(bs, k) - 1;
  }

  /** NEXT_BLKP and PREV_BLKP undo each other on the blocks of a
      well-formed heap. */
  lemma NextPrevInverse(mem: seq<nat>, bs: seq<Block>, k: nat)
    requires Wf(mem, bs) && 1 <= k < |bs|
    ensures InHeap(mem, Off(bs, k) - 4) && InHeap(mem, Off(bs, k) - 8)
    ensures InHeap(mem, NextBlkp(mem, Off(bs, k)) - 8)
      && PrevBlkp(mem, NextBlkp(mem, Off(bs, k))) == Off(bs, k)
    ensures InHeap(mem, PrevBlkp(mem, Off(bs, k)) - 4)
      && NextBlkp(mem, PrevBlkp(mem, Off(bs, k))) == Off(bs, k)
  {
    NextBlock(mem, bs, k);
    PrevBlock(mem, bs, k + 1);
    PrevBlock(mem, bs, k);
    NextBlock(mem, bs, k - 1);
  }

  // ---------------------------------------------------------------------
  // First fit

  /** A block that can take a request of asize bytes. */
  predicate Fits(b: Block, asize: int)
  {
    !b.alloc && asize <= Size(b)
  }

  /** The index of the first block that fits, or |bs| if none does. */
  function FirstFit(bs: seq<Block>, asize: int): (k: nat)
    ensures k <= |bs|
    ensures k < |bs| ==> Fits(bs[k], asize)
    ensures forall j :: 0 <= j < k ==> !Fits(bs[j], asize)
    decreases |bs|
  {
    if bs == [] then 0
    else if Fits(bs[0], asize) then 0
    else 1 + FirstFit(bs[1..], asize)
  }

  /** First fit finds nothing exactly when no block fits, and never picks
      the prologue. */
  lemma FirstFitNone(bs: seq<Block>, asize: int)
    requires |bs| >= 1 && bs[0] == Prologue
    ensures FirstFit(bs, asize) == |bs| <==> forall j :: 0 <= j < |bs| ==> !Fits(bs[j], asize)
    ensures FirstFit(bs, asize) >= 1
  {
  }

  // ---------------------------------------------------------------------
  // Placement

  /** place on a block of u double words for a request of au double words:
      an allocated block of au followed by a free remainder when at least
      two words (one double word) are left over, otherwise the whole block
      allocated. */
  function Split(u: nat, au: nat): (r: seq<Block>)
    requires au <= u
    ensures Sum(r) == u
    ensures 1 <= |r| <= 2 && r[0].alloc && au <= r[0].units
    ensures |r| == 2 <==> u - au >= 1
    ensures |r| == 2 ==> r[0].units == au && r[1] == Block(u - au, false)
    ensures |r| == 1 ==> r[0].units == u
  {
    if u - au >= 1 then
      var r := [Block(au, true), Block(u - au, false)];
      assert r[1..] == [Block(u - au, false)] && r[1..][1..] == [];
      assert Sum(r[1..]) == u - au + Sum(r[1..][1..]);
      r
    else
      [Block(u, true)]
  }

  /** The blocks after placing au double words in block i. */
  function PlaceBlocks(bs: seq<Block>, i: nat, au: nat): (r: seq<Block>)
    requires i < |bs| && au <= bs[i].units
    ensures Sum(r) == Sum(bs)
    ensures |r| == |bs| - 1 + |Split(bs[i].units, au)|
    ensures r[..i] == bs[..i] && r[i].alloc && au <= r[i].units
  {
    var r := bs[..i] + Split(bs[i].units, au) + bs[i + 1..];
    assert bs == bs[..i] + [bs[i]] + bs[i + 1..];
    SumConcat(bs[..i] + [bs[i]], bs[i + 1..]);
    SumConcat(bs[..i], [bs[i]]);
    SumConcat(bs[..i] + Split(bs[i].units, au), bs[i + 1..]);
    SumConcat(bs[..i], Split(bs[i].units, au));
    r
  }

  /** Placing in a free block keeps free blocks apart: the remainder's only
      neighbour that could be free is the block after the old one, which was
      allocated, since no two free blocks were adjacent. */
  lemma PlaceNoAdjacentFree(bs: seq<Block>, i: nat, au: nat)
    requires i < |bs| && au <= bs[i].units && !bs[i].alloc
    requires NoAdjacentFree(bs)
    ensures NoAdjacentFree(PlaceBlocks(bs, i, au))
  {
    var sp := Split(bs[i].units, au);
    var r := PlaceBlocks(bs, i, au);
    assert r == bs[..i] + sp + bs[i + 1..];
    forall j | 0 < j < |r|
      ensures r[j - 1].alloc || r[j].alloc
    {
      if j < i {
        assert r[j - 1] == bs[j - 1] && r[j] == bs[j];
      } else if j <= i + |sp| - 1 {
        assert r[j - 1].alloc || r[j].alloc;
      } else if j == i + |sp| {
        assert r[j] == bs[i + 1];
        assert bs[i].alloc || bs[i + 1].alloc;
      } else {
        assert r[j - 1] == bs[j - |sp|] && r[j] == bs[j + 1 - |sp|];
        assert bs[j - |sp|].alloc || bs[j + 1 - |sp|].alloc;
      }
    }
  }

  // ---------------------------------------------------------------------
  // Coalescing

  /** Blocks lo to hi - 1 replaced by one free block spanning them all. */
  function MergeRange(bs: seq<Block>, lo: nat, hi: nat): (r: seq<Block>)
    requires lo < hi <= |bs|
    ensures Sum(r) == Sum(bs)
    ensures |r| == |bs| - (hi - lo) + 1
    ensures r[..lo] == bs[..lo] && r[lo + 1..] == bs[hi..]
    ensures r[lo] == Block(Sum(bs[lo..hi]), false)
  {
    var r := bs[..lo] + [Block(Sum(bs[lo..hi]), false)] + bs[hi..];
    assert bs == bs[..lo] + bs[lo..hi] + bs[hi..];
    SumConcat(bs[..lo] + bs[lo..hi], bs[hi..]);
    SumConcat(bs[..lo], bs[lo..hi]);
    SumConcat(bs[..lo] + [Block(Sum(bs[lo..hi]), false)], bs[hi..]);
    SumConcat(bs[..lo], [Block(Sum(bs[lo..hi]), false)]);
    assert r[lo + 1..] == bs[hi..];
    r
  }

  /** The first block coalescing block i merges: its predecessor if free. */
  function CoalesceLo(bs: seq<Block>, i: nat): (lo: nat)
    requires 1 <= i < |bs|
    ensures lo == i - 1 || lo == i
  {
    if !bs[i - 1].alloc then i - 1 else i
  }

  /** One past the last block coalescing block i merges: past its successor
      if that is free (after the last block comes the allocated epilogue). */
  function CoalesceHi(bs: seq<Block>, i: nat): (hi: nat)
    requires 1 <= i < |bs|
    ensures hi == i + 1 || hi == i + 2
    ensures hi <= |bs|
  {
    if i + 1 < |bs| && !bs[i + 1].alloc then i + 2 else i + 1
  }

  /** The blocks after coalescing the free block i with its free neighbours. */
  function Coalesced(bs: seq<Block>, i: nat): (r: seq<Block>)
    requires 1 <= i < |bs|
    ensures Sum(r) == Sum(bs)
    ensures CoalesceLo(bs, i) < |r|
    ensures !r[CoalesceLo(bs, i)].alloc
    ensures r[CoalesceLo(bs, i)].units == Sum(bs[CoalesceLo(bs, i)..CoalesceHi(bs, i)])
    ensures bs[i].units <= r[CoalesceLo(bs, i)].units
  {
    var lo, hi := CoalesceLo(bs, i), CoalesceHi(bs, i);
    HwSlice(bs, lo, i);
    HwSlice(bs, i, hi);
    HwSlice(bs, lo, hi);
    HwNext(bs, i);
    MergeRange(bs, lo, hi)
  }

  /** Coalescing moves no block before the merged one, and the merged
      block starts where block CoalesceLo did. */
  lemma CoalescedHw(bs: seq<Block>, i: nat)
    requires 1 <= i < |bs|
    ensures CoalesceLo(bs, i) < |Coalesced(bs, i)|
    ensures Hw(Coalesced(bs, i), CoalesceLo(bs, i)) == Hw(bs, CoalesceLo(bs, i))
  {
    var lo, hi := CoalesceLo(bs, i), CoalesceHi(bs, i);
    SpliceBefore(bs, lo, hi, [Block(Sum(bs[lo..hi]), false)], lo);
  }

  /** Coalescing the free block i leaves no two free blocks adjacent,
      provided the only pairs of adjacent free blocks involved block i. */
  lemma CoalescedNoAdjacentFree(bs: seq<Block>, i: nat)
    requires 1 <= i < |bs| && bs[0].alloc && !bs[i].alloc
    requires forall j :: 0 < j < |bs| && j != i && j != i + 1 ==> bs[j - 1].alloc || bs[j].alloc
    ensures NoAdjacentFree(Coalesced(bs, i))
  {
    var lo, hi := CoalesceLo(bs, i), CoalesceHi(bs, i);
    var r := Coalesced(bs, i);
    assert r == bs[..lo] + [Block(Sum(bs[lo..hi]), false)] + bs[hi..];
    forall j | 0 < j < |r|
      ensures r[j - 1].alloc || r[j].alloc
    {
      if j < lo {
        assert r[j - 1] == bs[j - 1] && r[j] == bs[j];
      } else if j == lo {
        assert r[j - 1] == bs[lo - 1];
        if lo == i - 1 {
          assert bs[lo - 1].alloc;
        }
      } else if j == lo + 1 {
        assert r[j] == bs[hi];
        if hi == i + 2 {
          assert bs[hi].alloc;
        }
      } else {
        var d := hi - lo - 1;
        assert r[j - 1] == bs[j - 1 + d] && r[j] == bs[j + d];
        assert bs[j - 1 + d].alloc || bs[j + d].alloc;
      }
    }
  }

  /** Freeing a block and coalescing it keeps free blocks apart. */
  lemma FreeNoAdjacentFree(bs: seq<Block>, i: nat)
    requires 1 <= i < |bs| && bs[0].alloc && NoAdjacentFree(bs)
    ensures NoAdjacentFree(Coalesced(bs[i := Block(bs[i].units, false)], i))
  {
    var fs := bs[i := Block(bs[i].units, false)];
    forall j | 0 < j < |fs| && j != i && j != i + 1
      ensures fs[j - 1].alloc || fs[j].alloc
    {
      assert fs[j - 1] == bs[j - 1] && fs[j] == bs[j];
    }
    CoalescedNoAdjacentFree(fs, i);
  }

  /** Appending a free block and coalescing it keeps free blocks apart. */
  lemma ExtendNoAdjacentFree(bs: seq<Block>, u: nat)
    requires |bs| >= 1 && bs[0].alloc && NoAdjacentFree(bs)
    ensures NoAdjacentFree(Coalesced(bs + [Block(u, false)], |bs|))
  {
    var es := bs + [Block(u, false)];
    forall j | 0 < j < |es| && j != |bs| && j != |bs| + 1
      ensures es[j - 1].alloc || es[j].alloc
    {
      assert es[j - 1] == bs[j - 1] && es[j] == bs[j];
    }
    CoalescedNoAdjacentFree(es, |bs|);
  }

  // ---------------------------------------------------------------------
  // Positions after a splice

  /** Replacing blocks lo to hi - 1 moves no block before lo. */
  lemma SpliceBefore(bs: seq<Block>, lo: nat, hi: nat, mid: seq<Block>, j: nat)
    requires lo <= hi <= |bs| && j <= lo
    ensures j <= |bs[..lo] + mid + bs[hi..]|
    ensures Hw(bs[..lo] + mid + bs[hi..], j) == Hw(bs, j)
    ensures j < lo ==> (bs[..lo] + mid + bs[hi..])[j] == bs[j]
  {
    assert (bs[..lo] + mid + bs[hi..])[..j] == bs[..j];
  }

  /** Replacing blocks lo to hi - 1 by blocks of the same total span moves
      no block from hi on: block j becomes block j - (hi - lo) + |mid| at
      the same position. */
  lemma SpliceAfter(bs: seq<Block>, lo: nat, hi: nat, mid: seq<Block>, j: nat)
    requires lo <= hi <= j <= |bs| && Sum(mid) == Sum(bs[lo..hi])
    ensures j - (hi - lo) + |mid| <= |bs[..lo] + mid + bs[hi..]|
    ensures Hw(bs[..lo] + mid + bs[hi..], j - (hi - lo) + |mid|) == Hw(bs, j)
    ensures j < |bs| ==> (bs[..lo] + mid + bs[hi..])[j - (hi - lo) + |mid|] == bs[j]
  {
    var r := bs[..lo] + mid + bs[hi..];
    var m := lo + |mid|;
    var j2 := j - (hi - lo) + |mid|;
    assert r[..lo] == bs[..lo];
    assert r[lo..m] == mid;
    assert r[m..j2] == bs[hi..j];
    HwSlice(r, lo, m);
    HwSlice(r, m, j2);
    HwSlice(bs, lo, hi);
    HwSlice(bs, hi, j);
  }

  // ---------------------------------------------------------------------
  // Rewriting words

  /** The words after writing b's tag into the header (word h) and then
      into the footer of a block of b's size (init_block, and the paired
      PUTs of place, coalesce and mm_free). */
  function WriteTags(mem: seq<nat>, h: nat, b: Block): (r: seq<nat>)
    requires 1 <= h && 1 <= b.units && h + 2 * b.units <= |mem|
    ensures |r| == |mem|
    ensures BlockAt(r, h, b)
  {
    mem[h := Tag(b)][h + 2 * b.units - 1 := Tag(b)]
  }

  /** Writing the tags changes no other word. */
  lemma WriteTagsFrame(mem: seq<nat>, h: nat, b: Block)
    requires 1 <= h && 1 <= b.units && h + 2 * b.units <= |mem|
    ensures forall w :: 0 <= w < |mem| && w != h && w != h + 2 * b.units - 1 ==> WriteTags(mem, h, b)[w] == mem[w]
    ensures SameOutside(mem, WriteTags(mem, h, b), h, h + 2 * b.units)
  {
  }

  /** The words after place on a block of u double words with its header
      in word h, for a request of au double words. */
  function PlaceMem(mem: seq<nat>, h: nat, u: nat, au: nat): (r: seq<nat>)
    requires 1 <= h && 1 <= au <= u && h + 2 * u <= |mem|
    ensures |r| == |mem|
    ensures Layout(r, h, Split(u, au))
  {
    if u - au >= 1 then
      var m1 := WriteTags(mem, h, Block(au, true));
      var r := WriteTags(m1, h + 2 * au, Block(u - au, false));
      assert BlockAt(r, h, Block(au, true)) by {
        WriteTagsFrame(m1, h + 2 * au, Block(u - au, false));
        assert r[h] == m1[h];
        assert r[h + 2 * au - 1] == m1[h + 2 * au - 1];
      }
      assert Layout(r, h, Split(u, au)) by {
        var sp := Split(u, au);
        assert sp[1..] == [Block(u - au, false)] && sp[1..][1..] == [];
      }
      r
    else
      var r := WriteTags(mem, h, Block(u, true));
      assert Split(u, au)[1..] == [];
      r
  }

  /** place changes only words of the block it splits, and none of the
      first au double words of its payload. */
  lemma PlaceMemFrame(mem: seq<nat>, h: nat, u: nat, au: nat)
    requires 1 <= h && 1 <= au <= u && h + 2 * u <= |mem|
    ensures SameOutside(mem, PlaceMem(mem, h, u, au), h, h + 2 * u)
    ensures forall w :: h < w < h + 2 * au - 1 ==> PlaceMem(mem, h, u, au)[w] == mem[w]
  {
    if u - au >= 1 {
      WriteTagsFrame(mem, h, Block(au, true));
      WriteTagsFrame(WriteTags(mem, h, Block(au, true)), h + 2 * au, Block(u - au, false));
    } else {
      WriteTagsFrame(mem, h, Block(u, true));
    }
  }

  /** Three layouts one after the other form one layout. */
  lemma LayoutJoin(mem: seq<nat>, h: int, xs: seq<Block>, ys: seq<Block>, zs: seq<Block>)
    requires Layout(mem, h, xs)
    requires Layout(mem, h + 2 * Sum(xs), ys)
    requires Layout(mem, h + 2 * Sum(xs) + 2 * Sum(ys), zs)
    ensures Layout(mem, h, xs + ys + zs)
  {
    var yz := ys + zs;
    assert xs + ys + zs == xs + yz;
    LayoutSplit(mem, h + 2 * Sum(xs), ys, zs);
    assert Layout(mem, h + 2 * Sum(xs), yz);
    LayoutSplit(mem, h, xs, yz);
  }

  /** A well-formed heap splits at any block k into the layout of the blocks
      before k and the layout of the rest from k's header on. */
  lemma WfSplitAt(mem: seq<nat>, bs: seq<Block>, k: nat)
    requires Wf(mem, bs) && k <= |bs|
    ensures Layout(mem, 1, bs[..k]) && Layout(mem, Hw(bs, k), bs[k..])
  {
    assert bs == bs[..k] + bs[k..];
    LayoutSplit(mem, 1, bs[..k], bs[k..]);
  }

  /** The blocks of a well-formed heap before lo and from hi on keep their
      layouts when only words of blocks lo to hi - 1 change. */
  lemma WfOutside(m1: seq<nat>, m2: seq<nat>, bs: seq<Block>, lo: nat, hi: nat)
    requires Wf(m1, bs) && 1 <= lo <= hi <= |bs|
    requires SameOutside(m1, m2, Hw(bs, lo), Hw(bs, hi))
    ensures Layout(m2, 1, bs[..lo]) && Layout(m2, Hw(bs, hi), bs[hi..])
  {
    var pre, post := bs[..lo], bs[hi..];
    var hh := Hw(bs, hi);
    WfSplitAt(m1, bs, lo);
    WfSplitAt(m1, bs, hi);
    forall w | 0 <= w < |m1| && 1 <= w < 1 + 2 * Sum(pre)
      ensures m2[w] == m1[w]
    {
    }
    LayoutFrame(m1, m2, 1, pre);
    forall w | 0 <= w < |m1| && hh <= w < hh + 2 * Sum(post)
      ensures m2[w] == m1[w]
    {
    }
    LayoutFrame(m1, m2, hh, post);
  }

  /** Replacing blocks lo to hi - 1 of a well-formed heap by blocks of the
      same total span, laid out in words that differ only inside that span,
      lays out the new list. */
  lemma LayoutReplace(m1: seq<nat>, m2: seq<nat>, bs: seq<Block>, lo: nat, hi: nat, mid: seq<Block>)
    requires Wf(m1, bs) && 1 <= lo <= hi <= |bs|
    requires Sum(mid) == Sum(bs[lo..hi])
    requires Layout(m2, Hw(bs, lo), mid)
    requires SameOutside(m1, m2, Hw(bs, lo), Hw(bs, hi))
    ensures Layout(m2, 1, bs[..lo] + mid + bs[hi..])
  {
    WfOutside(m1, m2, bs, lo, hi);
    HwSlice(bs, lo, hi);
    LayoutJoin(m2, 1, bs[..lo], mid, bs[hi..]);
  }

  /** The same replacement gives a well-formed heap. */
  lemma WfReplace(m1: seq<nat>, m2: seq<nat>, bs: seq<Block>, lo: nat, hi: nat, mid: seq<Block>)
    requires Wf(m1, bs) && 1 <= lo <= hi <= |bs|
    requires Sum(mid) == Sum(bs[lo..hi])
    requires Layout(m2, Hw(bs, lo), mid)
    requires SameOutside(m1, m2, Hw(bs, lo), Hw(bs, hi))
    ensures Wf(m2, bs[..lo] + mid + bs[hi..])
  {
    var pre, post := bs[..lo], bs[hi..];
    var r := pre + mid + post;
    LayoutReplace(m1, m2, bs, lo, hi, mid);
    HwSlice(bs, lo, hi);
    HwSlice(bs, hi, |bs|);
    assert bs[hi..|bs|] == post && bs[..|bs|] == bs;
    WfBlock(m1, bs, |bs|);
    SumConcat(pre + mid, post);
    SumConcat(pre, mid);
    assert r[0] == Prologue;
  }

  /** A one-block list spans that block. */
  lemma SumSingle(b: Block)
    ensures Sum([b]) == b.units
  {
    assert [b][1..] == [];
  }

  /** A one-block list is laid out where that block lies. */
  lemma LayoutSingle(mem: seq<nat>, h: int, b: Block)
    requires BlockAt(mem, h, b)
    ensures Layout(mem, h, [b])
  {
    assert [b][1..] == [];
  }

  /** The n fresh words sbrk hands out, taken to be zero; no property of
      the allocator depends on their value. */
  function Zeros(n: nat): (r: seq<nat>)
    ensures |r| == n
  {
    seq(n, w => 0)
  }

  /** The words after extend_heap has grown the heap by u double words and
      written init_block's tags and set_new_epilogue's header (before it
      coalesces): the old epilogue word heads a free block of u double
      words, and the new last word is the epilogue. */
  function GrowMem(mem: seq<nat>, u: nat): (r: seq<nat>)
    requires 2 <= |mem| && 1 <= u
    ensures |r| == |mem| + 2 * u
    ensures BlockAt(r, |mem| - 1, Block(u, false))
    ensures r[|r| - 1] == Pack(0, 1)
  {
    WriteTags(mem + Zeros(2 * u), |mem| - 1, Block(u, false))[|mem| + 2 * u - 1 := Pack(0, 1)]
  }

  /** Growing keeps every word before the old epilogue. */
  lemma GrowMemFrame(mem: seq<nat>, u: nat)
    requires 2 <= |mem| && 1 <= u
    ensures forall w :: 0 <= w < |mem| - 1 ==> GrowMem(mem, u)[w] == mem[w]
  {
    WriteTagsFrame(mem + Zeros(2 * u), |mem| - 1, Block(u, false));
  }

  /** Growing a well-formed heap appends a free block to its list. */
  lemma GrowWf(mem: seq<nat>, bs: seq<Block>, u: nat)
    requires Wf(mem, bs) && 1 <= u
    ensures Wf(GrowMem(mem, u), bs + [Block(u, false)])
  {
    var f := Block(u, false);
    var m2 := GrowMem(mem, u);
    GrowMemFrame(mem, u);
    WfBlock(mem, bs, |bs|);
    assert bs[..|bs|] == bs;
    LayoutFrame(mem, m2, 1, bs);
    LayoutSingle(m2, |mem| - 1, f);
    LayoutSplit(m2, 1, bs, [f]);
    SumConcat(bs, [f]);
    SumSingle(f);
    assert (bs + [f])[0] == bs[0];
  }

  /** The words after coalesce on the free block i: the merged block's tag
      written into the header of its first block and the footer of its
      last. */
  function CoalesceMem(mem: seq<nat>, bs: seq<Block>, i: nat): (r: seq<nat>)
    requires 1 <= i < |bs| && 1 <= bs[i].units && Hw(bs, |bs|) <= |mem|
    ensures |r| == |mem|
  {
    var lo, hi := CoalesceLo(bs, i), CoalesceHi(bs, i);
    HwSlice(bs, lo, hi);
    HwSlice(bs, hi, |bs|);
    HwMonotone(bs, i, hi);
    HwSlice(bs, lo, i);
    WriteTags(mem, Hw(bs, lo), Block(Sum(bs[lo..hi]), false))
  }

  /** coalesce writes only the header of the merged block's first block
      and the footer of its last. */
  lemma CoalesceMemFrame(mem: seq<nat>, bs: seq<Block>, i: nat)
    requires 1 <= i < |bs| && 1 <= bs[i].units && Hw(bs, |bs|) <= |mem|
    ensures forall w :: 0 <= w < |mem| && w != Hw(bs, CoalesceLo(bs, i)) && w != Hw(bs, CoalesceHi(bs, i)) - 1 ==>
      CoalesceMem(mem, bs, i)[w] == mem[w]
  {
    var lo, hi := CoalesceLo(bs, i), CoalesceHi(bs, i);
    HwSlice(bs, lo, hi);
    HwSlice(bs, hi, |bs|);
    HwMonotone(bs, i, hi);
    HwSlice(bs, lo, i);
    WriteTagsFrame(mem, Hw(bs, lo), Block(Sum(bs[lo..hi]), false));
  }

  /** The merged block coalesce writes spans block i and whichever of its
      neighbours are free. */
  lemma CoalesceUnits(bs: seq<Block>, i: nat)
    requires 1 <= i < |bs|
    ensures Sum(bs[CoalesceLo(bs, i)..CoalesceHi(bs, i)])
      == (if CoalesceLo(bs, i) == i - 1 then bs[i - 1].units else 0) + bs[i].units
       + (if CoalesceHi(bs, i) == i + 2 then bs[i + 1].units else 0)
  {
    var lo, hi := CoalesceLo(bs, i), CoalesceHi(bs, i);
    var tail := bs[i + 1..hi];
    if hi == i + 2 {
      assert tail == [bs[i + 1]];
      SumSingle(bs[i + 1]);
    } else {
      assert tail == [];
    }
    assert bs[i..hi] == [bs[i]] + tail;
    SumConcat([bs[i]], tail);
    SumSingle(bs[i]);
    if lo == i - 1 {
      assert bs[lo..hi] == [bs[i - 1]] + bs[i..hi];
      SumConcat([bs[i - 1]], bs[i..hi]);
      SumSingle(bs[i - 1]);
    }
  }

  /** coalesce writes the merged tag into the header of block CoalesceLo
      and the footer of block CoalesceHi - 1, case by case. */
  lemma CoalesceMemCases(mem: seq<nat>, bs: seq<Block>, i: nat)
    requires 1 <= i < |bs| && 1 <= bs[i].units && Hw(bs, |bs|) <= |mem|
    ensures CoalesceLo(bs, i) == i && CoalesceHi(bs, i) == i + 1 ==>
      && Hw(bs, i) + 2 * bs[i].units <= |mem|
      && CoalesceMem(mem, bs, i) == WriteTags(mem, Hw(bs, i), Block(bs[i].units, false))
    ensures CoalesceLo(bs, i) == i && CoalesceHi(bs, i) == i + 2 ==>
      && Hw(bs, i) + 2 * (bs[i].units + bs[i + 1].units) <= |mem|
      && CoalesceMem(mem, bs, i) == WriteTags(mem, Hw(bs, i), Block(bs[i].units + bs[i + 1].units, false))
    ensures CoalesceLo(bs, i) == i - 1 && CoalesceHi(bs, i) == i + 1 ==>
      && 1 <= Hw(bs, i - 1) && Hw(bs, i - 1) + 2 * (bs[i - 1].units + bs[i].units) <= |mem|
      && CoalesceMem(mem, bs, i) == WriteTags(mem, Hw(bs, i - 1), Block(bs[i - 1].units + bs[i].units, false))
    ensures CoalesceLo(bs, i) == i - 1 && CoalesceHi(bs, i) == i + 2 ==>
      && 1 <= Hw(bs, i - 1) && Hw(bs, i - 1) + 2 * (bs[i - 1].units + bs[i].units + bs[i + 1].units) <= |mem|
      && CoalesceMem(mem, bs, i) == WriteTags(mem, Hw(bs, i - 1), Block(bs[i - 1].units + bs[i].units + bs[i + 1].units, false))
  {
    CoalesceUnits(bs, i);
    var lo, hi := CoalesceLo(bs, i), CoalesceHi(bs, i);
    HwSlice(bs, lo, hi);
    HwSlice(bs, hi, |bs|);
  }

  /** Coalescing keeps the heap well formed, with the merged list. */
  lemma CoalesceWf(mem: seq<nat>, bs: seq<Block>, i: nat)
    requires Wf(mem, bs) && 1 <= i < |bs| && !bs[i].alloc
    ensures 1 <= bs[i].units && Hw(bs, |bs|) <= |mem|
    ensures Wf(CoalesceMem(mem, bs, i), Coalesced(bs, i))
  {
    var lo, hi := CoalesceLo(bs, i), CoalesceHi(bs, i);
    var b := Block(Sum(bs[lo..hi]), false);
    WfBlock(mem, bs, |bs|);
    WfBlock(mem, bs, i);
    HwSlice(bs, lo, hi);
    var m2 := CoalesceMem(mem, bs, i);
    WriteTagsFrame(mem, Hw(bs, lo), b);
    LayoutSingle(m2, Hw(bs, lo), b);
    SumSingle(b);
    WfReplace(mem, m2, bs, lo, hi, [b]);
  }

  /** Placing in block i keeps the heap well formed, with the split list. */
  lemma PlaceWf(mem: seq<nat>, bs: seq<Block>, i: nat, au: nat)
    requires Wf(mem, bs) && 1 <= i < |bs| && 1 <= au <= bs[i].units
    ensures Hw(bs, i) + 2 * bs[i].units <= |mem|
    ensures Wf(PlaceMem(mem, Hw(bs, i), bs[i].units, au), PlaceBlocks(bs, i, au))
  {
    WfBlock(mem, bs, i);
    var m2 := PlaceMem(mem, Hw(bs, i), bs[i].units, au);
    PlaceMemFrame(mem, Hw(bs, i), bs[i].units, au);
    HwNext(bs, i);
    assert bs[i..i + 1] == [bs[i]];
    SumSingle(bs[i]);
    WfReplace(mem, m2, bs, i, i + 1, Split(bs[i].units, au));
  }

  /** Rewriting the tags of block i as free keeps the heap well formed,
      with block i marked free. */
  lemma FreeWf(mem: seq<nat>, bs: seq<Block>, i: nat)
    requires Wf(mem, bs) && 1 <= i < |bs|
    ensures 1 <= bs[i].units && Hw(bs, i) + 2 * bs[i].units <= |mem|
    ensures Wf(WriteTags(mem, Hw(bs, i), Block(bs[i].units, false)), bs[i := Block(bs[i].units, false)])
  {
    var f := Block(bs[i].units, false);
    WfBlock(mem, bs, i);
    var m2 := WriteTags(mem, Hw(bs, i), f);
    WriteTagsFrame(mem, Hw(bs, i), f);
    HwNext(bs, i);
    assert bs[i..i + 1] == [bs[i]];
    SumSingle(bs[i]);
    SumSingle(f);
    LayoutSingle(m2, Hw(bs, i), f);
    WfReplace(mem, m2, bs, i, i + 1, [f]);
    assert bs[..i] + [f] + bs[i + 1..] == bs[i := f];
  }

  /** The words after copying n words from word src to word dst (memcpy
      of 4 * n bytes), one word after another; every word is read from the
      words before the copy, which is what a copy between ranges that do
      not overlap reads. */
  function CopyWords(mem: seq<nat>, dst: nat, src: nat, n: nat): (r: seq<nat>)
    requires dst + n <= |mem| && src + n <= |mem|
    ensures |r| == |mem|
    ensures forall w :: 0 <= w < |mem| && (w < dst || dst + n <= w) ==> r[w] == mem[w]
    ensures SameWords(r, dst, mem, src, n)
    decreases n
  {
    if n == 0 then mem
    else
      var r0 := CopyWords(mem, dst, src, n - 1);
      SameWordsUpdate(r0, dst, mem, src, n - 1, dst + n - 1, mem[src + n - 1]);
      r0[dst + n - 1 := mem[src + n - 1]]
  }

  /** Copying changes no word outside the destination. */
  lemma CopyWordsFrame(mem: seq<nat>, dst: nat, src: nat, n: nat)
    requires dst + n <= |mem| && src + n <= |mem|
    ensures SameOutside(mem, CopyWords(mem, dst, src, n), dst, dst + n)
  {
  }

  /** Copying into the payload of block k (between its header and its
      footer) keeps the heap well formed with the same blocks. */
  lemma CopyWf(mem: seq<nat>, bs: seq<Block>, k: nat, dst: nat, src: nat, n: nat)
    requires Wf(mem, bs) && 1 <= k < |bs|
    requires Hw(bs, k) < dst && dst + n <= Hw(bs, k) + 2 * bs[k].units - 1 && src + n <= |mem|
    ensures dst + n <= |mem| && Wf(CopyWords(mem, dst, src, n), bs)
  {
    WfBlock(mem, bs, k);
    var m2 := CopyWords(mem, dst, src, n);
    CopyWordsFrame(mem, dst, src, n);
    assert m2[Hw(bs, k)] == mem[Hw(bs, k)];
    assert m2[Hw(bs, k) + 2 * bs[k].units - 1] == mem[Hw(bs, k) + 2 * bs[k].units - 1];
    LayoutSingle(m2, Hw(bs, k), bs[k]);
    assert bs[k..k + 1] == [bs[k]];
    SumSingle(bs[k]);
    WfReplace(mem, m2, bs, k, k + 1, [bs[k]]);
    assert bs[..k] + [bs[k]] + bs[k + 1..] == bs;
  }

  /** The two tags can be written in either order. */
  lemma WriteTagsSwap(mem: seq<nat>, h: nat, b: Block)
    requires 1 <= h && 1 <= b.units && h + 2 * b.units <= |mem|
    ensures mem[h + 2 * b.units - 1 := Tag(b)][h := Tag(b)] == WriteTags(mem, h, b)
  {
  }

  /** Writing a block's own tags again changes nothing. */
  lemma WriteTagsSame(mem: seq<nat>, h: nat, b: Block)
    requires BlockAt(mem, h, b)
    ensures WriteTags(mem, h, b) == mem
  {
  }
}
