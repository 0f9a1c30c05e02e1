/**
 mm-firstfit.c: the allocator over one implicit list of boundary-tagged blocks.  Every
 method reads and writes heap words only; `blocks` says what the words represent.
 */
module ImplicitList {
  import opened Words
  import opened Blocks
  import opened Effects
  import opened Layout
  import opened Frames
  import opened MemLib

  class Allocator {
    const h: Heap
    /** Payload address of the prologue. */
    var heapListp: int
    ghost var blocks: seq<Block>

    /** The words represent `blocks`, adjacent free blocks allowed. */
    ghost predicate Rep()
      reads this, h, h.mem
    {
      h.Valid() && heapListp == PROLOGUE && Represents(h.mem[..], h.brk, blocks, true)
    }

    ghost predicate Valid()
      reads this, h, h.mem
    {
      Rep() && Canonical(blocks)
    }

    constructor (heap: Heap)
      ensures h == heap
    {
      h := heap;
      heapListp := 0;
      blocks := [];
    }

    /** place: bp is the payload of the free block i. */
    method Place(bp: int, asize: int, ghost i: int)
      requires Rep() && 0 <= i < |blocks| && bp == Off(blocks, i)
      requires Fits(blocks[i], asize) && Good(Block(asize, true))
      modifies h.mem, `blocks
      ensures Rep() && blocks == Blocks.Place(old(blocks), i, asize)
      ensures SameOutside(old(h.mem[..]), h.mem[..], bp - 4, Off(old(blocks), i + 1) - 4)
    {
      hide Word, Represents, Sum, Pack, SizeOf, AllocOf;
      ghost var m := h.mem[..];
      NextNeighbour(m, h.brk, blocks, i, true);
      PackFields(blocks[i].size, false);
      PackFields(asize, true);
      var csize := h.GetSize(bp - 4);
      if csize - asize >= DSIZE + OVERHEAD {
        h.PutTags(bp, asize, true);
        ghost var r := h.mem[..];
        var rest := h.NextBlkp(bp);
        h.PutTags(rest, csize - asize, false);
        TagsFrame(r, h.mem[..], rest - 4, rest + (csize - asize) - 4, bp, Block(asize, true), true);
        RetagSplit(m, h.mem[..], h.brk, blocks, i, Block(asize, true), Block(csize - asize, false), true);
      } else {
        h.PutTags(bp, csize, true);
        Retag(m, h.mem[..], h.brk, blocks, i, i + 1, Block(csize, true), true);
      }
      blocks := Blocks.Place(blocks, i, asize);
    }

    /** coalesce: bp is the payload of the free block i. */
    method Coalesce(bp: int, ghost i: int) returns (r: int)
      requires Rep() && 0 <= i < |blocks| && bp == Off(blocks, i) && !blocks[i].alloc
      modifies h.mem, `blocks
      ensures Rep() && blocks == Blocks.Coalesce(old(blocks), i)
      ensures r == Off(old(blocks), MergeLo(old(blocks), i))
      ensures SameOutside(old(h.mem[..]), h.mem[..], r - 4, Off(old(blocks), MergeHi(old(blocks), i)) - 4)
    {
      hide Word, PutWord, Represents, Sum, Tags, Pack, SizeOf, AllocOf;
      ghost var m := h.mem[..];
      ghost var lo, hi := MergeLo(blocks, i), MergeHi(blocks, i);
      PrevNeighbour(m, h.brk, blocks, i, true);
      NextNeighbour(m, h.brk, blocks, i, true);
      NeighbourFields(blocks, i);
      SumSlice(blocks, lo, hi);
      var prevAlloc := h.GetAlloc(h.Ftrp(h.PrevBlkp(bp)));
      var nextAlloc := h.GetAlloc(h.NextBlkp(bp) - 4);
      var size := h.GetSize(bp - 4);
      if prevAlloc && nextAlloc {
        r := bp;
      } else if prevAlloc && !nextAlloc {
        size := size + h.GetSize(h.NextBlkp(bp) - 4);
        h.PutTags(bp, size, false);
        r := bp;
      } else if !prevAlloc && nextAlloc {
        r, size := MergeDown(bp, size, i);
      } else {
        r, size := MergeBoth(bp, size, i);
      }
      Retag(m, h.mem[..], h.brk, blocks, lo, hi, Block(size, false), true);
      blocks := Blocks.Coalesce(blocks, i);
    }

    /** coalesce, case 3: only the block below is free. */
    method MergeDown(bp: int, bsize: int, ghost i: int) returns (r: int, size: int)
      requires Rep() && 0 < i < |blocks| && bp == Off(blocks, i) && bsize == blocks[i].size
      modifies h.mem
      ensures r == Off(blocks, i - 1) && size == Off(blocks, i + 1) - r
      ensures Tags(h.mem[..], r, Block(size, false), true)
      ensures SameOutside(old(h.mem[..]), h.mem[..], r - 4, r + size - 4)
    {
      hide Word, PutWord, Represents, Sum, Tags, Pack, SizeOf, AllocOf;
      ghost var m := h.mem[..];
      PrevNeighbour(m, h.brk, blocks, i, true);
      NextNeighbour(m, h.brk, blocks, i, true);
      size := bsize + h.GetSize(h.PrevBlkp(bp) - 4);
      PackFields(size, false);
      h.Put(h.Ftrp(bp), Pack(size, false));
      h.Put(h.PrevBlkp(bp) - 4, Pack(size, false));
      r := h.PrevBlkp(bp);
      TagsStored(m, h.mem[..], r, Block(size, false));
    }

    /** coalesce, case 4: the blocks on both sides are free. */
    method MergeBoth(bp: int, bsize: int, ghost i: int) returns (r: int, size: int)
      requires Rep() && 0 < i < |blocks| - 1 && bp == Off(blocks, i) && bsize == blocks[i].size
      modifies h.mem
      ensures r == Off(blocks, i - 1) && size == Off(blocks, i + 2) - r
      ensures Tags(h.mem[..], r, Block(size, false), true)
      ensures SameOutside(old(h.mem[..]), h.mem[..], r - 4, r + size - 4)
    {
      hide Word, PutWord, Represents, Sum, Tags, Pack, SizeOf, AllocOf;
      ghost var m := h.mem[..];
      PrevNeighbour(m, h.brk, blocks, i, true);
      NextNeighbour(m, h.brk, blocks, i, true);
      size := bsize + h.GetSize(h.PrevBlkp(bp) - 4) + h.GetSize(h.Ftrp(h.NextBlkp(bp)));
      PackFields(size, false);
      h.Put(h.PrevBlkp(bp) - 4, Pack(size, false));
      h.Put(h.Ftrp(h.NextBlkp(bp)), Pack(size, false));
      r := h.PrevBlkp(bp);
      TagsStored(m, h.mem[..], r, Block(size, false));
    }

    /** find_fit: the payload of the lowest free block of at least asize bytes, or 0. */
    method FindFit(asize: int) returns (bp: int)
      requires Rep()
      ensures var k := FirstFit(blocks, asize); bp == if k < |blocks| then Off(blocks, k) else 0
    {
      hide Represents, Word, Sum, Pack, SizeOf, AllocOf, FooterOk;
      ghost var k := -1;
      HeaderAt(h.mem[..], h.brk, blocks, k, true);
      bp := heapListp;
      while h.GetSize(bp - 4) > 0
        invariant -1 <= k <= |blocks| && bp == BlockAddress(blocks, k) && 4 <= bp <= h.mem.Length
        invariant forall j | 0 <= j < k :: !Fits(blocks[j], asize)
        decreases |blocks| - k
      {
        HeaderAt(h.mem[..], h.brk, blocks, k, true);
        if !h.GetAlloc(bp - 4) && asize <= h.GetSize(bp - 4) {
          FirstFitAt(blocks, asize, k);
          return;
        }
        bp := h.NextBlkp(bp);
        k := k + 1;
        HeaderAt(h.mem[..], h.brk, blocks, k, true);
      }
      HeaderAt(h.mem[..], h.brk, blocks, k, true);
      FirstFitAt(blocks, asize, k);
      bp := 0;
    }

    /** extend_heap: 0 when mem_sbrk refuses. */
    method ExtendHeap(words: int) returns (r: int)
      requires Valid() && 0 <= words < WORD_LIMIT && MIN_BLOCK <= GrowBytes(words)
      modifies h.mem, h`brk, h`enomem, `blocks
      ensures Valid()
      ensures var size := GrowBytes(words);
        if Blocks.HeapSize(old(blocks)) + size > MAX_HEAP then
          r == 0 && blocks == old(blocks) && h.mem[..] == old(h.mem[..]) && h.enomem
        else
          blocks == Extend(old(blocks), size) && r == Off(blocks, |blocks| - 1) && h.enomem == old(h.enomem)
      ensures KeepsBytes(old(h.mem[..]), h.mem[..], LiveBlocks(old(blocks)))
    {
      var size := (if words % 2 == 1 then (words + 1) * 4 else words * 4) % WORD_LIMIT;
      EvenGrowth(words);
      ghost var m := h.mem[..];
      InHeap(m, h.brk, blocks, true);
      var bp := h.Sbrk(size);
      if bp == -1 {
        return 0;
      }
      r := AddBlock(bp, size);
    }

    /** The tags of the new memory, and the merging after them in extend_heap. */
    method AddBlock(bp: int, size: int) returns (r: int)
      requires h.Valid() && heapListp == PROLOGUE && Canonical(blocks)
      requires Represents(h.mem[..], bp, blocks, true) && Good(Block(size, false)) && h.brk == bp + size
      modifies h.mem, `blocks
      ensures Valid() && blocks == Extend(old(blocks), size) && blocks != [] && r == Off(blocks, |blocks| - 1)
      ensures KeepsBytes(old(h.mem[..]), h.mem[..], LiveBlocks(old(blocks)))
    {
      hide Word, Represents, KeepsBytes, Sum, SumAlloc;
      ghost var m, bs, b := h.mem[..], blocks, Block(size, false);
      InHeap(m, bp, bs, true);
      ExtendEffect(bs, size);
      AppendTail(bp, size, bs);
      blocks := bs + [b];
      ghost var r1 := h.mem[..];
      OffOfLast(bs, b);
      r := Coalesce(bp, |bs|);
      ExtendFrame(m, r1, h.mem[..], bs, b);
      ExtendOff(bs, size);
    }

    /** Tags of a new last block, and the epilogue after it. */
    method AppendTail(bp: int, size: int, ghost bs: seq<Block>)
      requires h.Valid() && Represents(h.mem[..], bp, bs, true) && Good(Block(size, false)) && h.brk == bp + size
      modifies h.mem
      ensures Represents(h.mem[..], h.brk, bs + [Block(size, false)], true)
      ensures SameOutside(old(h.mem[..]), h.mem[..], bp - 4, h.brk)
    {
      hide Word, Represents, Sum, SizeOf, AllocOf, Pack;
      ghost var m, b := h.mem[..], Block(size, false);
      Prologue(m, bp, bs, true);
      PackFields(0, true);
      PackFields(size, false);
      h.PutTags(bp, size, false);
      ghost var r := h.mem[..];
      h.Put(h.NextBlkp(bp) - 4, Pack(0, true));
      TagsFrame(r, h.mem[..], h.brk - 4, h.brk, bp, b, true);
      Appended(m, h.mem[..], bp, bs, b, true);
    }

    /** mm_init, on an empty heap: 0, and never the failure code, because 4112 bytes always fit. */
    method Init() returns (status: int)
      requires h.Valid() && h.brk == 0
      modifies h.mem, h`brk, h`enomem, this
      ensures status == 0 && Valid() && blocks == [Block(CHUNKSIZE, false)] && h.enomem == old(h.enomem)
    {
      hide Word, PutWord, Represents, SizeOf, AllocOf, Pack;
      PackFields(OVERHEAD, true);
      PackFields(0, true);
      var p := h.Sbrk(16);
      h.Put(p, 0);
      h.Put(p + 4, Pack(OVERHEAD, true));
      h.Put(p + 8, Pack(OVERHEAD, true));
      h.Put(p + 12, Pack(0, true));
      heapListp := p + DSIZE;
      blocks := [];
      EmptyHeap(h.mem[..], true);
      var bp := ExtendHeap(CHUNKSIZE / 4);
      ExtendEffect([], CHUNKSIZE);
      status := if bp == 0 then -1 else 0;
    }

    /** mm_malloc: 0 for NULL. */
    method Malloc(size: int) returns (p: int)
      requires Valid() && 0 <= size <= WORD_LIMIT - 16
      modifies h.mem, h`brk, h`enomem, `blocks
      ensures Valid()
      ensures size == 0 ==> p == 0 && blocks == old(blocks)
      ensures size > 0 ==> Allocation(blocks, p) == Allocate(old(blocks), size)
      ensures var bs, asize := old(blocks), AdjustedSize(size);
        size > 0 && (exists j :: 0 <= j < |bs| && !bs[j].alloc && asize <= bs[j].size) ==>
          exists k :: 0 <= k < |bs| && p == Off(bs, k) && blocks == Blocks.Place(bs, k, asize)
            && !bs[k].alloc && asize <= bs[k].size && forall j | 0 <= j < k :: bs[j].alloc || bs[j].size < asize
      ensures h.enomem == (old(h.enomem) || (size > 0 && p == 0))
      ensures KeepsBytes(old(h.mem[..]), h.mem[..], LiveBlocks(old(blocks)))
    {
      if size <= 0 {
        return 0;
      }
      hide Represents, LiveBlocks, Sum, SumAlloc, Extend, Blocks.Place, Canonical, KeepsBytes, Word, FirstFit,
           AdjustedSize;
      LowestPlaced(blocks, size);
      var asize := AdjustSize(size);
      p := PlaceOrGrow(asize);
    }

    /** The block size mm_malloc asks for: overhead added, rounded up to double words. */
    method AdjustSize(size: int) returns (asize: int)
      requires 0 < size <= WORD_LIMIT - 16
      ensures asize == AdjustedSize(size) && Good(Block(asize, true)) && size + 8 <= asize <= size + 15
      ensures asize <= WORD_LIMIT - 8
    {
      AdjustedSizeExact(size);
      if size <= DSIZE {
        asize := DSIZE + OVERHEAD;
      } else {
        asize := DSIZE * ((size + OVERHEAD + (DSIZE - 1)) % WORD_LIMIT / DSIZE);
      }
    }

    /** The search of mm_malloc, and the block placed where it ends or in more memory. */
    method PlaceOrGrow(asize: int) returns (p: int)
      requires Valid() && Good(Block(asize, true)) && asize <= WORD_LIMIT - 8
      modifies h.mem, h`brk, h`enomem, `blocks
      ensures Valid()
      ensures var bs, k := old(blocks), FirstFit(old(blocks), asize);
        var size := Max(asize, CHUNKSIZE);
        var grown := Extend(bs, size);
        if k < |bs| then p == Off(bs, k) != 0 && blocks == Blocks.Place(bs, k, asize)
        else if Blocks.HeapSize(bs) + size > MAX_HEAP then p == 0 && blocks == bs
        else grown != [] && p == Off(grown, |grown| - 1) != 0 && blocks == Blocks.Place(grown, |grown| - 1, asize)
      ensures h.enomem == (old(h.enomem) || p == 0)
      ensures KeepsBytes(old(h.mem[..]), h.mem[..], LiveBlocks(old(blocks)))
    {
      hide Represents, LiveBlocks, Sum, SumAlloc, Extend, Blocks.Place, Canonical, KeepsBytes, Word, FirstFit;
      FirstFitIsLowest(blocks, asize);
      InHeap(h.mem[..], h.brk, blocks, true);
      OffPositive(blocks);
      p := FindFit(asize);
      if p != 0 {
        PlaceAt(p, asize, FirstFit(blocks, asize));
      } else {
        p := GrowAndPlace(asize);
      }
    }

    /** extend_heap(size / WSIZE). */
    method ExtendBytes(size: int) returns (r: int)
      requires Valid() && Good(Block(size, false)) && size < WORD_LIMIT
      modifies h.mem, h`brk, h`enomem, `blocks
      ensures Valid()
      ensures if Blocks.HeapSize(old(blocks)) + size > MAX_HEAP then
                r == 0 && blocks == old(blocks) && h.mem[..] == old(h.mem[..]) && h.enomem
              else
                blocks == Extend(old(blocks), size) && r == Off(blocks, |blocks| - 1) && h.enomem == old(h.enomem)
      ensures KeepsBytes(old(h.mem[..]), h.mem[..], LiveBlocks(old(blocks)))
    {
      hide GrowBytes;
      EvenWords(size);
      r := ExtendHeap(size / 4);
    }

    /** mm_malloc when nothing fits: more memory, and the block placed there. */
    method GrowAndPlace(asize: int) returns (p: int)
      requires Valid() && Good(Block(asize, true)) && asize <= WORD_LIMIT - 8
      modifies h.mem, h`brk, h`enomem, `blocks
      ensures Valid()
      ensures var size := Max(asize, CHUNKSIZE);
        var grown := Extend(old(blocks), size);
        if Blocks.HeapSize(old(blocks)) + size > MAX_HEAP then
          p == 0 && blocks == old(blocks) && h.mem[..] == old(h.mem[..]) && h.enomem
        else
          && grown != [] && 0 < p == Off(grown, |grown| - 1) && h.enomem == old(h.enomem)
          && blocks == Blocks.Place(grown, |grown| - 1, asize)
      ensures KeepsBytes(old(h.mem[..]), h.mem[..], LiveBlocks(old(blocks)))
    {
      ghost var m, bs := h.mem[..], blocks;
      hide Extend, Blocks.Place, Sum, SumAlloc, Represents, Word, LiveBlocks, GrowBytes;
      var extendSize := Max(asize, CHUNKSIZE);
      GrownFits(bs, asize);
      p := ExtendBytes(extendSize);
      if p == 0 {
        return;
      }
      ghost var r := h.mem[..];
      PlaceAt(p, asize, |blocks| - 1);
      KeepsBytesTrans(m, r, h.mem[..], LiveBlocks(bs), LiveBlocks(Extend(bs, extendSize)));
    }

    /** place, with what a client may rely on. */
    method PlaceAt(bp: int, asize: int, ghost i: int)
      requires Valid() && 0 <= i < |blocks| && bp == Off(blocks, i)
      requires Fits(blocks[i], asize) && Good(Block(asize, true))
      modifies h.mem, `blocks
      ensures Valid() && blocks == Blocks.Place(old(blocks), i, asize)
      ensures KeepsBytes(old(h.mem[..]), h.mem[..], LiveBlocks(old(blocks)))
    {
      ghost var m, bs := h.mem[..], blocks;
      Place(bp, asize, i);
      PlaceEffect(bs, i, asize);
      FreeIndices(bs, i, i + 1);
      FrameLive(m, h.mem[..], bs, i, i + 1, LiveBlocks(bs));
    }

    /** mm_free. */
    method Free(bp: int)
      requires Valid() && bp in LiveBlocks(blocks)
      modifies h.mem, `blocks
      ensures Valid() && blocks == Release(old(blocks), bp)
      ensures KeepsBytes(old(h.mem[..]), h.mem[..], LiveBlocks(old(blocks)) - {bp})
    {
      hide Represents, Word, PutWord, At, Sum, SumAlloc, Tags, Pack, SizeOf, AllocOf;
      ghost var m, bs := h.mem[..], blocks;
      ghost var i := Index(bs, FIRST_BP, bp);
      Locate(bs, FIRST_BP, true, bp);
      NextNeighbour(m, h.brk, bs, i, true);
      ReleaseEffect(bs, bp);
      FreedMaps(bs, i);
      PackFields(bs[i].size, true);
      var size := h.GetSize(bp - 4);
      h.PutTags(bp, size, false);
      ghost var r := h.mem[..];
      Retag(m, r, h.brk, bs, i, i + 1, Block(size, false), true);
      blocks := bs[i := Block(size, false)];
      assert blocks == bs[..i] + [Block(size, false)] + bs[i + 1..];
      var _ := Coalesce(bp, i);
      FreeFrame(m, r, h.mem[..], bs, i);
    }

    /**
     mm_realloc: 0 when mm_malloc fails, and then the process exits.  The copy may run over
     the old block's footer into the next header, but stays inside the heap and clear of the
     new payload.
     */
    method Realloc(ptr: int, size: int) returns (newp: int)
      requires Valid() && ptr in LiveBlocks(blocks) && 0 <= size <= WORD_LIMIT - 16
      modifies h.mem, h`brk, h`enomem, `blocks
      ensures Valid()
      ensures newp == 0 <==> size == 0 || Allocate(old(blocks), size).bp == 0
      ensures newp == 0 ==> blocks == old(blocks)
      ensures newp != 0 ==> var a := Allocate(old(blocks), size); newp == a.bp && blocks == Release(a.blocks, ptr)
      ensures h.enomem == (old(h.enomem) || (size > 0 && newp == 0))
      ensures KeepsBytes(old(h.mem[..]), h.mem[..], LiveBlocks(old(blocks)) - {ptr})
      ensures newp != 0 ==> SameBytes(old(h.mem[..]), ptr, h.mem[..], newp, Min(size, LiveBlocks(old(blocks))[ptr] - OVERHEAD))
      ensures newp != 0 ==>
        var room := LiveBlocks(old(blocks))[ptr] - 8; var n := if size < room then size else room;
        && 0 < n && 0 <= newp && newp + n <= h.mem.Length && 0 <= ptr && ptr + n <= h.mem.Length
        && h.mem[newp..newp + n] == old(h.mem[..])[ptr..ptr + n]
    {
      hide Word, Represents, Allocate, Release, SameBytes, KeepsBytes, Blocks.Place, AdjustedSize, Sum, SumAlloc,
           LiveBlocks, Canonical, AllGood, NoAdjacentFree, NeedsGrowth, Growth;
      ghost var m0, bs0 := h.mem[..], blocks;
      InHeap(m0, h.brk, bs0, true);
      newp := Malloc(size);
      if newp == 0 {
        KeepsFewer(m0, h.mem[..], LiveBlocks(bs0), LiveBlocks(bs0) - {ptr});
        if size > 0 {
          AllocateEffect(bs0, size);
        }
        return;
      }
      ghost var m1, bs1 := h.mem[..], blocks;
      Allocated(bs0, size);
      CopyPayload(newp, ptr, size);
      ghost var m2 := h.mem[..];
      LiveSize(bs0, ptr);
      Free(ptr);
      ReallocFrame(m0, m1, m2, h.mem[..], bs0, bs1, ptr, newp, Min(size, LiveBlocks(bs1)[ptr]));
      BytesCopied(m0, ptr, h.mem[..], newp, Min(size, LiveBlocks(bs0)[ptr] - OVERHEAD));
    }

    /** The copy in mm_realloc. */
    method CopyPayload(newp: int, ptr: int, size: int)
      requires Valid() && ptr in LiveBlocks(blocks) && newp in LiveBlocks(blocks) && ptr != newp
      requires 0 <= size <= LiveBlocks(blocks)[newp] - OVERHEAD
      modifies h.mem
      ensures Valid()
      ensures KeepsBytes(old(h.mem[..]), h.mem[..], LiveBlocks(blocks) - {newp})
      ensures SameBytes(old(h.mem[..]), ptr, h.mem[..], newp, Min(size, LiveBlocks(blocks)[ptr]))
      ensures var n := if size < LiveBlocks(blocks)[ptr] then size else LiveBlocks(blocks)[ptr];
        && 0 <= n && 0 <= newp && newp + n <= h.mem.Length && 0 <= ptr && ptr + n <= h.mem.Length
        && h.mem[newp..newp + n] == old(h.mem[..])[ptr..ptr + n]
    {
      hide Represents, Word;
      ghost var m := h.mem[..];
      var copySize := BlockSizeAt(ptr);
      if size < copySize {
        copySize := size;
      }
      InHeap(m, h.brk, blocks, true);
      CopyInBounds(blocks, ptr, newp, copySize);
      h.Memcpy(newp, ptr, copySize);
      PayloadWritten(m, h.mem[..], h.brk, blocks, newp, newp, newp + copySize, true);
      BytesCopied(m, ptr, h.mem[..], newp, copySize);
    }

    /** GET_SIZE(HDRP(bp)) of a live block. */
    method BlockSizeAt(bp: int) returns (size: int)
      requires Rep() && bp in LiveBlocks(blocks)
      ensures MIN_BLOCK <= size == LiveBlocks(blocks)[bp]
    {
      Locate(blocks, FIRST_BP, true, bp);
      NextNeighbour(h.mem[..], h.brk, blocks, Index(blocks, FIRST_BP, bp), true);
      PackFields(LiveBlocks(blocks)[bp], true);
      size := h.GetSize(bp - 4);
    }

    /** checkblock: the number of errors it reports. */
    method CheckBlock(bp: int) returns (errors: int)
      requires 4 <= bp <= h.mem.Length && 0 <= h.Ftrp(bp) && h.Ftrp(bp) + 4 <= h.mem.Length
      ensures 0 <= errors && (errors == 0 <==> bp % 8 == 0 && h.Get(bp - 4) == h.Get(h.Ftrp(bp)))
    {
      errors := 0;
      if bp % 8 != 0 {
        errors := errors + 1;
      }
      if h.Get(bp - 4) != h.Get(h.Ftrp(bp)) {
        errors := errors + 1;
      }
    }

    /** All that the walk of mm_checkheap relies on: footers need agree only on size and allocated bit. */
    ghost predicate Walkable()
      reads this, h, h.mem
    {
      h.Valid() && heapListp == PROLOGUE && Represents(h.mem[..], h.brk, blocks, false)
    }

    lemma RepWalkable()
      requires Rep()
      ensures Walkable()
    {
      SegLoosened(h.mem[..], FIRST_BP, blocks);
    }

    /**
     mm_checkheap: the number of errors it reports, and the payload addresses it lists when
     verbose.  Where sizes and allocated bits agree it lists every block once, between
     prologue and epilogue, and is silent exactly when every footer equals its header.
     */
    method CheckHeap(verbose: bool) returns (errors: int, listed: seq<int>)
      requires Walkable()
      ensures errors == 0 <==> Rep()
      ensures listed == if verbose then Addresses(blocks, |blocks| + 2) else []
      ensures verbose ==> |listed| == |blocks| + 2 && listed[0] == 8
      ensures forall k | 0 < k < |listed| :: listed[k] == Off(blocks, k - 1) && listed[k - 1] < listed[k]
    {
      hide Represents, Word, Seg, Pack, Sum, FooterExact, FooterOk, SizeOf, AllocOf;
      ghost var m, k := h.mem[..], -1;
      errors, listed := 0, [];
      var bp := heapListp;
      HeaderAt(m, h.brk, blocks, -1, false);
      if h.GetSize(bp - 4) != DSIZE || !h.GetAlloc(bp - 4) {
        errors := errors + 1;
      }
      CheckedBlock(m, h.brk, blocks, -1);
      var e := CheckBlock(bp);
      errors := errors + e;
      while h.GetSize(bp - 4) > 0
        invariant -1 <= k <= |blocks| && bp == BlockAddress(blocks, k) && 4 <= bp <= h.mem.Length
        invariant 0 <= errors && (errors == 0 <==> forall j | 0 <= j < k :: FooterExact(m, blocks, FIRST_BP, j))
        invariant listed == if verbose then Addresses(blocks, k + 1) else []
        decreases |blocks| - k
      {
        HeaderAt(m, h.brk, blocks, k, false);
        if verbose {
          listed := listed + [bp];
        }
        e := CheckBlock(bp);
        errors := errors + e;
        CheckedBlock(m, h.brk, blocks, k);
        bp := h.NextBlkp(bp);
        k := k + 1;
        HeaderAt(m, h.brk, blocks, k, false);
      }
      HeaderAt(m, h.brk, blocks, k, false);
      if verbose {
        listed := listed + [bp];
      }
      if h.GetSize(bp - 4) != 0 || !h.GetAlloc(bp - 4) {
        errors := errors + 1;
      }
      ExactHeap(m, h.brk, blocks);
      AddressesAscend(m, h.brk, blocks);
    }

    /** mm_checkheap in a reachable state is silent. */
    method CheckReachable(verbose: bool) returns (errors: int, listed: seq<int>)
      requires Valid()
      ensures errors == 0
      ensures listed == if verbose then Addresses(blocks, |blocks| + 2) else []
      ensures verbose ==> |listed| == |blocks| + 2 && listed[0] == 8
      ensures forall k | 0 < k < |listed| :: listed[k] == Off(blocks, k - 1) && listed[k - 1] < listed[k]
    {
      RepWalkable();
      errors, listed := CheckHeap(verbose);
    }
  }

  /** What checkblock compares at block k, the prologue included. */
  lemma CheckedBlock(m: seq<byte>, brk: int, bs: seq<Block>, k: int)
    requires Represents(m, brk, bs, false) && -1 <= k < |bs|
    ensures var p := BlockAddress(bs, k);
      && 8 <= p <= |m| && p % 8 == 0 && 0 <= Layout.Ftrp(m, p) && Layout.Ftrp(m, p) + 4 <= |m|
      && (Word(m, p - 4) == Word(m, Layout.Ftrp(m, p)) <==> k == -1 || FooterExact(m, bs, FIRST_BP, k))
  {
    HeaderAt(m, brk, bs, k, false);
    if k == -1 {
      Prologue(m, brk, bs, false);
      PackFields(OVERHEAD, true);
    }
  }

  lemma ExactHeap(m: seq<byte>, brk: int, bs: seq<Block>)
    requires Represents(m, brk, bs, false)
    ensures Represents(m, brk, bs, true) <==> AllExact(m, bs, FIRST_BP)
  {
    SegExact(m, FIRST_BP, bs);
  }

  /** The first n addresses of a walk: prologue, blocks in order, epilogue. */
  function Addresses(bs: seq<Block>, n: int): seq<int>
    requires 0 <= n <= |bs| + 2
  {
    seq(n, k requires 0 <= k < n => BlockAddress(bs, k - 1))
  }

  /** The walk starts at the prologue and meets each block above the one before. */
  lemma AddressesAscend(m: seq<byte>, brk: int, bs: seq<Block>)
    requires Represents(m, brk, bs, false)
    ensures var s := Addresses(bs, |bs| + 2);
      s[0] == 8 && forall k | 0 < k < |s| :: s[k] == Off(bs, k - 1) && s[k - 1] < s[k]
  {
    var s := Addresses(bs, |bs| + 2);
    forall k | 0 < k < |s| ensures s[k] == Off(bs, k - 1) && s[k - 1] < s[k] {
      HeaderAt(m, brk, bs, k - 2, false);
    }
  }

  /** The n bytes at p in m are the n bytes at q in r. */
  ghost predicate SameBytes(m: seq<byte>, p: int, r: seq<byte>, q: int, n: int) {
    && 0 <= p && p + n <= |m| && 0 <= q && q + n <= |r|
    && forall a {:trigger r[a]} | q <= a < q + n :: r[a] == m[p + (a - q)]
  }

  lemma LiveSize(bs: seq<Block>, q: int)
    requires AllGood(bs) && q in LiveBlocks(bs)
    ensures MIN_BLOCK <= LiveBlocks(bs)[q]
  {
    AtBounds(bs, FIRST_BP, true, q);
  }

  /** The two stretches are equal. */
  lemma BytesCopied(m: seq<byte>, p: int, r: seq<byte>, q: int, n: int)
    requires SameBytes(m, p, r, q, n)
    ensures 0 <= n ==> r[q..q + n] == m[p..p + n]
  {
    if 0 <= n {
      var x, y := r[q..q + n], m[p..p + n];
      forall j | 0 <= j < n ensures x[j] == y[j] {
        var a := q + j;
        assert r[a] == m[p + (a - q)];
      }
    }
  }

  /** What memcpy in mm_realloc reads and writes. */
  lemma CopyInBounds(bs: seq<Block>, ptr: int, newp: int, n: int)
    requires AllGood(bs) && Blocks.HeapSize(bs) <= MAX_HEAP
    requires ptr in LiveBlocks(bs) && newp in LiveBlocks(bs) && ptr != newp
    requires 0 <= n <= LiveBlocks(bs)[ptr] && n <= LiveBlocks(bs)[newp] - OVERHEAD
    ensures FIRST_BP <= ptr && ptr + n <= Blocks.HeapSize(bs)
    ensures FIRST_BP <= newp && newp + n <= Blocks.HeapSize(bs) - OVERHEAD
    ensures newp + n <= ptr || ptr + n <= newp
  {
    AtBounds(bs, FIRST_BP, true, ptr);
    AtBounds(bs, FIRST_BP, true, newp);
    if ptr < newp {
      AtApart(bs, FIRST_BP, true, true, ptr, newp);
    } else {
      AtApart(bs, FIRST_BP, true, true, newp, ptr);
    }
  }

  /** AllocateEffect for a request that succeeds. */
  lemma Allocated(bs: seq<Block>, size: int)
    requires Canonical(bs) && 0 < size <= WORD_LIMIT - 16 && Allocate(bs, size).bp != 0 && Blocks.HeapSize(bs) <= MAX_HEAP
    ensures var r := Allocate(bs, size);
      && Canonical(r.blocks) && Blocks.HeapSize(r.blocks) <= MAX_HEAP
      && r.bp !in LiveBlocks(bs) && r.bp in LiveBlocks(r.blocks)
      && LiveBlocks(r.blocks) == LiveBlocks(bs)[r.bp := LiveBlocks(r.blocks)[r.bp]]
      && size + OVERHEAD <= LiveBlocks(r.blocks)[r.bp]
  {
    AllocateEffect(bs, size);
  }

  lemma ReallocFrame(m0: seq<byte>, m1: seq<byte>, m2: seq<byte>, m3: seq<byte>,
                     bs0: seq<Block>, bs1: seq<Block>, ptr: int, newp: int, n: int)
    requires AllGood(bs0) && AllGood(bs1) && Blocks.HeapSize(bs1) <= MAX_HEAP == |m0|
    requires ptr in LiveBlocks(bs0) && newp !in LiveBlocks(bs0) && newp in LiveBlocks(bs1)
    requires LiveBlocks(bs1) == LiveBlocks(bs0)[newp := LiveBlocks(bs1)[newp]]
    requires 0 <= n <= LiveBlocks(bs1)[newp] - OVERHEAD && n <= LiveBlocks(bs0)[ptr]
    requires KeepsBytes(m0, m1, LiveBlocks(bs0)) && SameBytes(m1, ptr, m2, newp, n)
    requires KeepsBytes(m1, m2, LiveBlocks(bs1) - {newp})
    requires KeepsBytes(m2, m3, LiveBlocks(bs1) - {ptr})
    ensures KeepsBytes(m0, m3, LiveBlocks(bs0) - {ptr})
    ensures SameBytes(m0, ptr, m3, newp, Min(n, LiveBlocks(bs0)[ptr] - OVERHEAD))
  {
    KeepsBytesTrans(m0, m1, m2, LiveBlocks(bs0) - {ptr}, LiveBlocks(bs1) - {newp});
    KeepsBytesTrans(m0, m2, m3, LiveBlocks(bs0) - {ptr}, LiveBlocks(bs1) - {ptr});
    var k := Min(n, LiveBlocks(bs0)[ptr] - OVERHEAD);
    forall a | newp <= a < newp + k ensures m3[a] == m0[ptr + (a - newp)]
    {
      assert newp in LiveBlocks(bs1) - {ptr};
      assert m3[a] == m2[a];
      var b := ptr + (a - newp);
      assert 0 <= b < |m1| && m2[a] == m1[b];
      assert m1[b] == m0[b];
    }
  }

  /** AllocateLowest for a request that some block can serve. */
  lemma LowestPlaced(bs: seq<Block>, size: int)
    requires Canonical(bs) && 0 < size <= WORD_LIMIT - 16
    ensures var asize, r := AdjustedSize(size), Allocate(bs, size);
      (exists j :: 0 <= j < |bs| && !bs[j].alloc && asize <= bs[j].size) ==>
        exists k :: 0 <= k < |bs| && r.bp == Off(bs, k) && r.blocks == Blocks.Place(bs, k, asize)
          && !bs[k].alloc && asize <= bs[k].size && forall j | 0 <= j < k :: bs[j].alloc || bs[j].size < asize
  {
    hide AdjustedSize, Allocate, GrownTail, Sum;
    var k := AllocateLowest(bs, size);
  }

  /** The last block of the grown heap. */
  lemma GrownFits(bs: seq<Block>, asize: int)
    requires Canonical(bs) && Good(Block(asize, true))
    ensures var size := Max(asize, CHUNKSIZE); var grown := Extend(bs, size);
      && Good(Block(size, false)) && asize <= size <= asize + CHUNKSIZE
      && grown != [] && Fits(grown[|grown| - 1], asize) && 0 < Off(grown, |grown| - 1)
      && LiveBlocks(grown) == LiveBlocks(bs)
  {
    hide Sum, SumAlloc, At, Extend;
    var size := Max(asize, CHUNKSIZE);
    ExtendEffect(bs, size);
    OffPositive(Extend(bs, size));
  }

  lemma FirstFitAt(bs: seq<Block>, asize: int, k: int)
    requires 0 <= k <= |bs| && (forall j | 0 <= j < k :: !Fits(bs[j], asize)) && (k < |bs| ==> Fits(bs[k], asize))
    ensures FirstFit(bs, asize) == k
  {
    FirstFitIsLowest(bs, asize);
  }
}
