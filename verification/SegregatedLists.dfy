/**
 mm.c: the same heap of boundary-tagged blocks, with the free blocks also kept on twenty
 segregated lists.  No header carries the realloc tag here.  A footer may hold a stray tag
 bit, because PUT keeps that bit of whatever word was there.
 */
module SegregatedLists {
  import opened Words
  import opened Blocks
  import opened Effects
  import opened Layout
  import opened Frames
  import opened MemLib
  import opened SegLists

  class Allocator {
    const h: Heap
    var heapListp: int
    /** sgrlists. */
    const heads: array<int>
    ghost var blocks: seq<Block>
    /** The twenty lists, and the free blocks on them with their sizes. */
    ghost var lists: seq<seq<int>>
    ghost var indexed: map<int, int>

    /** The words represent `blocks`, and the lists hold the free blocks in `indexed`. */
    ghost predicate Rep()
      reads this, h, h.mem, heads
    {
      && h.Valid() && heapListp == PROLOGUE && heads.Length == LISTS
      && Represents(h.mem[..], h.brk, blocks, false)
      && Indexed(h.mem[..], heads[..], lists, indexed)
      && Within(indexed, FreeBlocks(blocks))
    }

    /** And every free block is on a list. */
    ghost predicate Valid()
      reads this, h, h.mem, heads
    {
      Rep() && Canonical(blocks) && indexed == FreeBlocks(blocks)
    }

    constructor (heap: Heap)
      ensures h == heap && heads.Length == LISTS && fresh(heads)
    {
      h := heap;
      heapListp := 0;
      heads := new int[LISTS];
      blocks, lists, indexed := [], [], map[];
    }

    /** SET_BP on a link word of the free block x. */
    method SetLink(p: int, v: int, ghost x: int)
      requires h.Valid() && Represents(h.mem[..], h.brk, blocks, false)
      requires x in FreeBlocks(blocks) && (p == x || p == x + 4) && 0 <= v < WORD_LIMIT
      modifies h.mem
      ensures 0 <= p && p + 4 <= h.mem.Length && h.mem[..] == PutWord(old(h.mem[..]), p, v)
      ensures Represents(h.mem[..], h.brk, blocks, false)
      ensures KeepsBytes(old(h.mem[..]), h.mem[..], LiveBlocks(blocks))
    {
      hide Represents, Word;
      ghost var m := h.mem[..];
      FreeBlock(m, h.brk, blocks, x, false);
      h.Put(p, v);
      FreePayloadWritten(m, h.mem[..], h.brk, blocks, x, p, p + 4, false);
    }

    /** The shift loop that starts insert_block and delete_block. */
    method SelectList(size: int) returns (list: int, rest: int)
      ensures (list, rest) == Shift(size, 0)
    {
      list, rest := 0, size;
      while list < LISTS - 1 && rest > 1
        invariant 0 <= list < LISTS && Shift(rest, list) == Shift(size, 0)
        decreases LISTS - list
      {
        rest := rest / 2;
        list := list + 1;
      }
    }

    /** The ordering loop of insert_block: the places before and after the new block. */
    method FindPlace(list: int, rest: int) returns (searchBp: int, insertBp: int, ghost k: int)
      requires Rep() && 0 <= list < LISTS
      ensures |lists| == LISTS && 0 <= k <= |lists[list]| && searchBp == Elem(lists[list], k) && insertBp == Elem(lists[list], k - 1)
      ensures forall j | 0 <= j < k :: lists[list][j] in indexed && rest > indexed[lists[list][j]]
      ensures searchBp != 0 ==> searchBp in indexed && rest <= indexed[searchBp]
    {
      hide Represents, Word, At, Indexed, Class, Unique;
      ghost var m := h.mem[..];
      HeadAndLinks(m, heads[..], lists, indexed, list);
      ghost var s := lists[list];
      searchBp, insertBp, k := heads[list], 0, 0;
      if searchBp != 0 {
        assert Entry(m, s, indexed, list, 0);
        FreeBlock(m, h.brk, blocks, searchBp, false);
      }
      while searchBp != 0 && rest > h.GetSize(searchBp - 4)
        invariant 0 <= k <= |s| && searchBp == Elem(s, k) && insertBp == Elem(s, k - 1)
        invariant searchBp != 0 ==> searchBp in indexed && 4 <= searchBp <= h.mem.Length && h.GetSize(searchBp - 4) == indexed[searchBp]
        invariant forall j | 0 <= j < k :: s[j] in indexed && rest > indexed[s[j]]
        decreases |s| - k
      {
        assert Entry(m, s, indexed, list, k);
        insertBp := searchBp;
        searchBp := h.Get(searchBp);
        k := k + 1;
        if searchBp != 0 {
          assert Entry(m, s, indexed, list, k);
          FreeBlock(m, h.brk, blocks, searchBp, false);
        }
      }
    }

    /** The link writes of insert_block, and the list head when there is no block before. */
    method LinkBlock(bp: int, searchBp: int, insertBp: int, list: int)
      requires h.Valid() && Represents(h.mem[..], h.brk, blocks, false) && 0 <= list < heads.Length
      requires bp in FreeBlocks(blocks) && (searchBp == 0 || searchBp in FreeBlocks(blocks)) && (insertBp == 0 || insertBp in FreeBlocks(blocks))
      modifies h.mem, heads
      ensures 0 <= bp && bp + 8 <= h.mem.Length <= WORD_LIMIT
      ensures 0 <= searchBp && searchBp + 8 <= h.mem.Length && 0 <= insertBp && insertBp + 8 <= h.mem.Length
      ensures h.mem[..] == LinkedIn(old(h.mem[..]), bp, searchBp, insertBp)
      ensures heads[..] == if insertBp == 0 then old(heads[..])[list := bp] else old(heads[..])
      ensures Represents(h.mem[..], h.brk, blocks, false)
      ensures KeepsBytes(old(h.mem[..]), h.mem[..], LiveBlocks(blocks))
    {
      hide Represents, Word, PutWord, At;
      FreeBlock(h.mem[..], h.brk, blocks, bp, false);
      if searchBp != 0 {
        FreeBlock(h.mem[..], h.brk, blocks, searchBp, false);
      }
      if insertBp != 0 {
        FreeBlock(h.mem[..], h.brk, blocks, insertBp, false);
      }
      if searchBp != 0 {
        if insertBp != 0 {
          SetLink(bp, searchBp, bp);
          SetLink(searchBp + 4, bp, searchBp);
          SetLink(bp + 4, insertBp, bp);
          SetLink(insertBp, bp, insertBp);
        } else {
          SetLink(bp, searchBp, bp);
          SetLink(searchBp + 4, bp, searchBp);
          SetLink(bp + 4, 0, bp);
          heads[list] := bp;
        }
      } else {
        if insertBp != 0 {
          SetLink(bp, 0, bp);
          SetLink(bp + 4, insertBp, bp);
          SetLink(insertBp, bp, insertBp);
        } else {
          SetLink(bp, 0, bp);
          SetLink(bp + 4, 0, bp);
          heads[list] := bp;
        }
      }
    }

    /**
     insert_block: the free block goes to the front of the list for its size.  That keeps the
     list ascending exactly when the block is no larger than the one it is put before.
     */
    method InsertBlock(bp: int, size: int)
      requires Rep() && bp in FreeBlocks(blocks) && FreeBlocks(blocks)[bp] == size && bp !in indexed
      modifies h.mem, heads, `lists, `indexed
      ensures Rep() && indexed == old(indexed)[bp := size]
      ensures 0 <= Class(size) < LISTS == |old(lists)|
      ensures lists == Listed(old(lists), bp, size) == old(lists)[Class(size) := [bp] + old(lists)[Class(size)]]
      ensures var s := old(lists)[Class(size)];
        && (s != [] ==> s[0] in old(indexed))
        && (SizesAscend(lists[Class(size)], indexed) <==>
              SizesAscend(s, old(indexed)) && (s != [] ==> size <= old(indexed)[s[0]]))
      ensures KeepsBytes(old(h.mem[..]), h.mem[..], LiveBlocks(blocks))
    {
      hide Represents, Word, PutWord, Indexed, At, Shift, Spread, SizesAscend, Without;
      ghost var m := h.mem[..];
      FreeBlock(m, h.brk, blocks, bp, false);
      ClassIsLog(size);
      SpreadFree(m, h.brk, blocks, indexed[bp := size]);
      var list, rest := SelectList(size);
      var searchBp, insertBp;
      ghost var k;
      searchBp, insertBp, k := FindPlace(list, rest);
      HeadAndLinks(m, heads[..], lists, indexed, list);
      HeadInsertion(m, lists[list], indexed, list, bp, size);
      InsertIntoIndex(m, heads[..], lists, indexed, bp, size, k);
      if insertBp != 0 {
        assert Entry(m, lists[list], indexed, list, k - 1);
      }
      if searchBp != 0 {
        assert Entry(m, lists[list], indexed, list, k);
      }
      LinkBlock(bp, searchBp, insertBp, list);
      if k > 0 {
        assert Entry(m, lists[list], indexed, list, 0);
        RestBelowClassmates(size, indexed[lists[list][0]]);
        assert false;
      }
      assert InsertAt(lists[list], 0, bp) == [bp] + lists[list];
      lists := lists[list := InsertAt(lists[list], k, bp)];
      indexed := indexed[bp := size];
    }

    /** delete_block: the block leaves the list for its size. */
    method DeleteBlock(bp: int)
      requires Rep() && bp in indexed
      modifies h.mem, heads, `lists, `indexed
      ensures Rep() && indexed == old(indexed) - {bp}
      ensures var c := Class(old(indexed)[bp]);
        && 0 <= c < LISTS == |old(lists)|
        && lists == Unlisted(old(lists), bp, old(indexed)[bp])
        && (exists k :: 0 <= k < |old(lists)[c]| && old(lists)[c][k] == bp && lists == old(lists)[c := RemoveAt(old(lists)[c], k)])
        && (SizesAscend(old(lists)[c], old(indexed)) ==> SizesAscend(lists[c], indexed))
      ensures KeepsBytes(old(h.mem[..]), h.mem[..], LiveBlocks(blocks))
    {
      hide Represents, Word, PutWord, Indexed, At, Shift, Spread, SizesAscend, Without;
      ghost var m, free := h.mem[..], indexed;
      FreeBlock(m, h.brk, blocks, bp, false);
      ClassIsLog(free[bp]);
      SpreadFree(m, h.brk, blocks, free);
      var size := h.GetSize(bp - 4);
      var list, _ := SelectList(size);
      HeadAndLinks(m, heads[..], lists, free, list);
      ghost var k := Position(m, heads[..], lists, free, bp);
      ghost var s := lists[list];
      DeleteFromIndex(m, heads[..], lists, free, bp, k);
      assert Entry(m, s, free, list, k);
      if k + 1 < |s| {
        assert Entry(m, s, free, list, k + 1);
      }
      if k > 0 {
        assert Entry(m, s, free, list, k - 1);
      }
      SpreadApart(free, |m|);
      RemovedIsWithout(s, k);
      if SizesAscend(s, free) {
        RemoveAscends(s, free, k);
      }
      UnlinkBlock(bp, list, Elem(s, k + 1), Elem(s, k - 1));
      lists := lists[list := RemoveAt(s, k)];
      indexed := free - {bp};
    }

    /** The link writes of delete_block, and the list head when there is no block before. */
    method UnlinkBlock(bp: int, list: int, ghost n: int, ghost p: int)
      requires h.Valid() && Represents(h.mem[..], h.brk, blocks, false) && 0 <= list < heads.Length
      requires bp in FreeBlocks(blocks) && (n == 0 || n in FreeBlocks(blocks)) && (p == 0 || p in FreeBlocks(blocks))
      requires 4 <= bp && bp + 8 <= h.mem.Length && h.Get(bp) == n && h.Get(bp + 4) == p
      requires (n == 0 || n + 8 <= bp || bp + 8 <= n) && (p == 0 || p + 8 <= bp || bp + 8 <= p)
      modifies h.mem, heads
      ensures 0 <= n && n + 8 <= h.mem.Length <= WORD_LIMIT && 0 <= p && p + 8 <= h.mem.Length
      ensures h.mem[..] == Unlinked(old(h.mem[..]), n, p)
      ensures heads[..] == if p == 0 then old(heads[..])[list := n] else old(heads[..])
      ensures Represents(h.mem[..], h.brk, blocks, false)
      ensures KeepsBytes(old(h.mem[..]), h.mem[..], LiveBlocks(blocks))
    {
      hide Represents, Word, PutWord, At;
      if n != 0 {
        FreeBlock(h.mem[..], h.brk, blocks, n, false);
      }
      if p != 0 {
        FreeBlock(h.mem[..], h.brk, blocks, p, false);
      }
      FreeBlock(h.mem[..], h.brk, blocks, bp, false);
      if h.Get(bp) != 0 {
        if h.Get(bp + 4) != 0 {
          SetLink(h.Get(bp) + 4, h.Get(bp + 4), n);
          SetLink(h.Get(bp + 4), h.Get(bp), p);
        } else {
          SetLink(h.Get(bp) + 4, 0, n);
          heads[list] := h.Get(bp);
        }
      } else {
        if h.Get(bp + 4) != 0 {
          SetLink(h.Get(bp + 4), 0, p);
        } else {
          heads[list] := 0;
        }
      }
    }

    // ------------------------------------------------------------------ tags

    /** PUT: the tag bit already at p stays. */
    method PutKeepTag(p: int, v: int)
      requires 0 <= p && p + 4 <= h.mem.Length && 0 <= v < WORD_LIMIT && TagOf(v) == 0
      modifies h.mem
      ensures 0 <= v + TagOf(Word(old(h.mem[..]), p)) < WORD_LIMIT
      ensures h.mem[..] == PutWord(old(h.mem[..]), p, v + TagOf(Word(old(h.mem[..]), p)))
    {
      hide Word, PutWord;
      var tag := TagOf(h.Get(p));
      assert v + 2 < WORD_LIMIT;
      h.Put(p, v + tag);
    }

    /** PUT on an untagged header, then on the footer where the new header says it is. */
    method PutTags(bp: int, size: int, alloc: bool)
      requires 4 <= bp && Good(Block(size, alloc)) && bp + size - 4 <= h.mem.Length <= MAX_HEAP
      requires TagOf(h.Get(bp - 4)) == 0
      modifies h.mem
      ensures Tags(h.mem[..], bp, Block(size, alloc), false)
      ensures SameOutside(old(h.mem[..]), h.mem[..], bp - 4, bp + size - 4)
    {
      hide Word, PutWord, SizeOf, AllocOf, Pack, TagOf;
      PackFields(size, alloc);
      ghost var m := h.mem[..];
      PutKeepTag(bp - 4, Pack(size, alloc));
      ghost var f := Word(h.mem[..], h.Ftrp(bp));
      StrayTag(size, alloc, f);
      PutKeepTag(h.Ftrp(bp), Pack(size, alloc));
    }

    // ------------------------------------------------------------------ operations

    /** coalesce: bp is the payload of the free block i; all free blocks are on lists. */
    method Coalesce(bp: int, ghost i: int) returns (r: int)
      requires Rep() && Loose(blocks, i) && indexed == FreeBlocks(blocks) && bp == Off(blocks, i)
      modifies h.mem, heads, `lists, `indexed, `blocks
      ensures Valid() && blocks == Blocks.Coalesce(old(blocks), i) && lists == CoalesceLists(old(lists), old(blocks), i)
      ensures r == Off(old(blocks), MergeLo(old(blocks), i))
      ensures KeepsBytes(old(h.mem[..]), h.mem[..], LiveBlocks(old(blocks)))
    {
      hide Represents, Word, PutWord, Indexed, At, Listed, Unlisted, SizesAscend, Sum, SumAlloc, Tags, Pack,
           SizeOf, AllocOf, RunAddresses, Class, RemoveAt, UnlistedBeside;
      ghost var m, bs := h.mem[..], blocks;
      PrevNeighbour(m, h.brk, blocks, i, false);
      NextNeighbour(m, h.brk, blocks, i, false);
      NeighbourFields(blocks, i);
      NotLive(blocks, i);
      CoalesceEffect(blocks, i);
      var prevAlloc := h.GetAlloc(h.PrevBlkp(bp) - 4);
      var nextAlloc := h.GetAlloc(h.NextBlkp(bp) - 4);
      var size := h.GetSize(bp - 4);
      if prevAlloc && nextAlloc {
        CoalesceAlone(blocks, i);
        return bp;
      }
      HeaderUntagged(m, h.brk, blocks, i - 1, false);
      if TagOf(h.Get(h.PrevBlkp(bp) - 4)) != 0 {
        prevAlloc := true;
      }
      DeleteBlock(bp);
      ghost var m1 := h.mem[..];
      r, size := MergeBlock(bp, size, prevAlloc, nextAlloc, i);
      ghost var m2 := h.mem[..];
      InsertBlock(r, size);
      KeepsBytesTrans(m, m1, m2, LiveBlocks(bs), LiveBlocks(bs));
      KeepsBytesTrans(m, m2, h.mem[..], LiveBlocks(bs), LiveBlocks(blocks));
    }

    /** The merging cases of coalesce, up to the insertion of the merged block. */
    method MergeBlock(bp: int, bsize: int, prevAlloc: bool, nextAlloc: bool, ghost i: int) returns (r: int, size: int)
      requires Rep() && Loose(blocks, i) && indexed == FreeBlocks(blocks) - {bp} && bp == Off(blocks, i) && bsize == blocks[i].size
      requires (prevAlloc <==> MergeLo(blocks, i) == i) && (nextAlloc <==> MergeHi(blocks, i) == i + 1)
      requires !(prevAlloc && nextAlloc)
      modifies h.mem, heads, `lists, `indexed, `blocks
      ensures Rep() && blocks == Blocks.Coalesce(old(blocks), i) && lists == UnlistedBeside(old(lists), old(blocks), i)
      ensures var lo, hi := MergeLo(old(blocks), i), MergeHi(old(blocks), i);
        r == Off(old(blocks), lo) && size == Off(old(blocks), hi) - r
      ensures r !in indexed && FreeBlocks(blocks) == indexed[r := size]
      ensures KeepsBytes(old(h.mem[..]), h.mem[..], LiveBlocks(old(blocks)))
    {
      hide Represents, Word, PutWord, Indexed, At, Listed, Unlisted, SizesAscend, Sum, SumAlloc, Tags, Pack,
           SizeOf, AllocOf, LiveBlocks, RunAddresses, Class, RemoveAt, AllGood, NoAdjacentFree;
      ghost var m, bs, lo, hi := h.mem[..], blocks, MergeLo(blocks, i), MergeHi(blocks, i);
      PrevNeighbour(m, h.brk, bs, i, false);
      NextNeighbour(m, h.brk, bs, i, false);
      RunMembers(bs, i);
      ghost var m2;
      if prevAlloc && !nextAlloc {
        DeleteBlock(h.NextBlkp(bp));
        m2 := h.mem[..];
        size := MergeUp(bp, bsize, i);
        r := bp;
      } else if !prevAlloc && nextAlloc {
        DeleteBlock(h.PrevBlkp(bp));
        m2 := h.mem[..];
        r, size := MergeDown(bp, bsize, i);
      } else {
        DeleteBlock(h.PrevBlkp(bp));
        ghost var m1 := h.mem[..];
        NextNeighbour(m1, h.brk, bs, i, false);
        DeleteBlock(h.NextBlkp(bp));
        m2 := h.mem[..];
        KeepsBytesTrans(m, m1, m2, LiveBlocks(bs), LiveBlocks(bs));
        r, size := MergeBoth(bp, bsize, i);
      }
      assert lists == UnlistedBeside(old(lists), bs, i);
      hide UnlistedBeside;
      SumSlice(bs, lo, hi);
      Retag(m2, h.mem[..], h.brk, bs, lo, hi, Block(size, false), false);
      MergedIndex(m2, h.mem[..], h.brk, heads[..], lists, indexed, bs, i);
      KeepsBytesTrans(m, m2, h.mem[..], LiveBlocks(bs), LiveBlocks(bs));
      blocks := Blocks.Coalesce(bs, i);
    }

    /** The tags when only the block above is free. */
    method MergeUp(bp: int, bsize: int, ghost i: int) returns (size: int)
      requires h.Valid() && Represents(h.mem[..], h.brk, blocks, false)
      requires 0 <= i < |blocks| && bp == Off(blocks, i) && bsize == blocks[i].size && MergeHi(blocks, i) == i + 2
      modifies h.mem
      ensures size == Off(blocks, i + 2) - bp && Tags(h.mem[..], bp, Block(size, false), false)
      ensures SameOutside(old(h.mem[..]), h.mem[..], bp - 4, bp + size - 4)
    {
      hide Represents, Word, PutWord, Sum, Tags, Pack, SizeOf, AllocOf, TagOf;
      NextNeighbour(h.mem[..], h.brk, blocks, i, false);
      NeighbourFields(blocks, i);
      PackFields(blocks[i].size, blocks[i].alloc);
      size := bsize + h.GetSize(h.NextBlkp(bp) - 4);
      PutTags(bp, size, false);
    }

    /** The tags when only the block below is free. */
    method MergeDown(bp: int, bsize: int, ghost i: int) returns (r: int, size: int)
      requires h.Valid() && Represents(h.mem[..], h.brk, blocks, false)
      requires 0 < i < |blocks| && bp == Off(blocks, i) && bsize == blocks[i].size
      modifies h.mem
      ensures r == Off(blocks, i - 1) && size == Off(blocks, i + 1) - r
      ensures Tags(h.mem[..], r, Block(size, false), false)
      ensures SameOutside(old(h.mem[..]), h.mem[..], r - 4, r + size - 4)
    {
      hide Represents, Word, PutWord, Sum, Tags, Pack, SizeOf, AllocOf, TagOf, FooterOk, BlockAddress, Off;
      ghost var m := h.mem[..];
      PrevNeighbour(m, h.brk, blocks, i, false);
      NextNeighbour(m, h.brk, blocks, i, false);
      HeaderUntagged(m, h.brk, blocks, i - 1, false);
      size := bsize + h.GetSize(h.PrevBlkp(bp) - 4);
      PackFields(size, false);
      PutKeepTag(h.Ftrp(bp), Pack(size, false));
      PutKeepTag(h.PrevBlkp(bp) - 4, Pack(size, false));
      r := h.PrevBlkp(bp);
      ghost var f := Word(m, r + size - 8);
      StrayTag(size, false, f);
      TagsPut(m, h.mem[..], r, Block(size, false), Pack(size, false) + TagOf(f));
    }

    /** The tags when the blocks on both sides are free. */
    method MergeBoth(bp: int, bsize: int, ghost i: int) returns (r: int, size: int)
      requires h.Valid() && Represents(h.mem[..], h.brk, blocks, false)
      requires 0 < i < |blocks| - 1 && bp == Off(blocks, i) && bsize == blocks[i].size
      modifies h.mem
      ensures r == Off(blocks, i - 1) && size == Off(blocks, i + 2) - r
      ensures Tags(h.mem[..], r, Block(size, false), false)
      ensures SameOutside(old(h.mem[..]), h.mem[..], r - 4, r + size - 4)
    {
      hide Represents, Word, PutWord, Sum, Tags, Pack, SizeOf, AllocOf, TagOf, FooterOk, BlockAddress, Off;
      ghost var m := h.mem[..];
      PrevNeighbour(m, h.brk, blocks, i, false);
      NextNeighbour(m, h.brk, blocks, i, false);
      HeaderUntagged(m, h.brk, blocks, i - 1, false);
      PackFields(blocks[i + 1].size, blocks[i + 1].alloc);
      size := bsize + h.GetSize(h.PrevBlkp(bp) - 4) + h.GetSize(h.NextBlkp(bp) - 4);
      PackFields(size, false);
      PutKeepTag(h.PrevBlkp(bp) - 4, Pack(size, false));
      PutKeepTag(h.Ftrp(h.NextBlkp(bp)), Pack(size, false));
      r := h.PrevBlkp(bp);
      ghost var f := Word(m, r + size - 8);
      StrayTag(size, false, f);
      TagsPut(m, h.mem[..], r, Block(size, false), Pack(size, false) + TagOf(f));
    }

    /** place: bp is the payload of the free block i. */
    method Place(bp: int, asize: int, ghost i: int)
      requires Valid() && 0 <= i < |blocks| && bp == Off(blocks, i)
      requires Fits(blocks[i], asize) && Good(Block(asize, true))
      modifies h.mem, heads, `lists, `indexed, `blocks
      ensures Valid() && blocks == Blocks.Place(old(blocks), i, asize) && lists == PlaceLists(old(lists), old(blocks), i, asize)
      ensures KeepsBytes(old(h.mem[..]), h.mem[..], LiveBlocks(old(blocks)))
    {
      hide Represents, Word, PutWord, Indexed, At, Listed, Unlisted, SizesAscend, Sum, SumAlloc, Tags, Pack, SizeOf,
           AllocOf, LiveBlocks;
      ghost var m, bs := h.mem[..], blocks;
      NextNeighbour(m, h.brk, bs, i, false);
      PackFields(bs[i].size, false);
      NotLive(bs, i);
      PlaceEffect(bs, i, asize);
      PlaceFree(bs, i, asize);
      var bpSize := h.GetSize(bp - 4);
      var remainder := bpSize - asize;
      DeleteBlock(bp);
      ghost var m1 := h.mem[..];
      PlaceTags(bp, bpSize, asize, i);
      ghost var m2 := h.mem[..];
      PlacedIndex(m1, m2, h.brk, heads[..], lists, indexed, bs, i, asize);
      blocks := Blocks.Place(bs, i, asize);
      KeepsBytesTrans(m, m1, m2, LiveBlocks(bs), LiveBlocks(bs));
      if remainder >= MIN_BLOCK {
        NextAfterPlace(m2, h.brk, bs, i, asize);
        InsertBlock(h.NextBlkp(bp), remainder);
        KeepsBytesTrans(m, m2, h.mem[..], LiveBlocks(bs), LiveBlocks(blocks));
      }
    }

    /** The tags written by place. */
    method PlaceTags(bp: int, bpSize: int, asize: int, ghost i: int)
      requires h.Valid() && Represents(h.mem[..], h.brk, blocks, false)
      requires 0 <= i < |blocks| && bp == Off(blocks, i) && bpSize == blocks[i].size
      requires Fits(blocks[i], asize) && Good(Block(asize, true))
      modifies h.mem
      ensures Represents(h.mem[..], h.brk, Blocks.Place(blocks, i, asize), false)
      ensures SameOutside(old(h.mem[..]), h.mem[..], bp - 4, Off(blocks, i + 1) - 4)
    {
      hide Represents, Word, PutWord, Sum, Pack, SizeOf, AllocOf, TagOf;
      ghost var m := h.mem[..];
      NextNeighbour(m, h.brk, blocks, i, false);
      PackFields(bpSize, false);
      PackFields(asize, true);
      if bpSize - asize >= MIN_BLOCK {
        PutTags(bp, asize, true);
        ghost var r := h.mem[..];
        h.PutTags(h.NextBlkp(bp), bpSize - asize, false);
        TagsFrame(r, h.mem[..], bp + asize - 4, bp + bpSize - 4, bp, Block(asize, true), false);
        RetagSplit(m, h.mem[..], h.brk, blocks, i, Block(asize, true), Block(bpSize - asize, false), false);
      } else {
        PutTags(bp, bpSize, true);
        Retag(m, h.mem[..], h.brk, blocks, i, i + 1, Block(bpSize, true), false);
      }
    }

    /** extend_heap: 0 when mem_sbrk refuses. */
    method ExtendHeap(words: int) returns (r: int)
      requires Valid() && 0 <= words < WORD_LIMIT && MIN_BLOCK <= GrowBytes(words)
      modifies h.mem, h`brk, h`enomem, heads, `lists, `indexed, `blocks
      ensures Valid()
      ensures var size := GrowBytes(words);
        if Blocks.HeapSize(old(blocks)) + size > MAX_HEAP then
          r == 0 && blocks == old(blocks) && lists == old(lists) && h.mem[..] == old(h.mem[..]) && h.enomem
        else
          && blocks == Extend(old(blocks), size) && lists == ExtendLists(old(lists), old(blocks), size)
          && r == Off(blocks, |blocks| - 1) && h.enomem == old(h.enomem)
      ensures KeepsBytes(old(h.mem[..]), h.mem[..], LiveBlocks(old(blocks)))
    {
      var size := (if words % 2 == 1 then (words + 1) * 4 else words * 4) % WORD_LIMIT;
      EvenGrowth(words);
      if size < OVERHEAD {
        size := OVERHEAD;
      }
      ghost var m, bs := h.mem[..], blocks;
      InHeap(m, h.brk, bs, false);
      var bp := h.Sbrk(size);
      if bp == -1 {
        return 0;
      }
      r := AddBlock(bp, size);
    }

    /** The tags of the new memory, and what follows them in extend_heap. */
    method AddBlock(bp: int, size: int) returns (r: int)
      requires h.Valid() && heapListp == PROLOGUE && heads.Length == LISTS && Canonical(blocks)
      requires Represents(h.mem[..], bp, blocks, false) && Good(Block(size, false)) && h.brk == bp + size
      requires Indexed(h.mem[..], heads[..], lists, indexed) && indexed == FreeBlocks(blocks)
      modifies h.mem, heads, `lists, `indexed, `blocks
      ensures Valid() && blocks == Extend(old(blocks), size) && blocks != [] && r == Off(blocks, |blocks| - 1)
      ensures lists == ExtendLists(old(lists), old(blocks), size)
      ensures KeepsBytes(old(h.mem[..]), h.mem[..], LiveBlocks(old(blocks)))
    {
      hide Represents, Word, PutWord, Indexed, At, Listed, Unlisted, SizesAscend, Sum, SumAlloc, Tags, Pack, SizeOf,
           AllocOf;
      ghost var m, bs, b := h.mem[..], blocks, Block(size, false);
      InHeap(m, bp, bs, false);
      AppendTail(bp, size);
      ghost var m1 := h.mem[..];
      AppendedIndex(m, m1, bp, heads[..], lists, bs, b);
      blocks := bs + [b];
      InsertBlock(bp, size);
      ghost var m2 := h.mem[..];
      OffOfLast(bs, b);
      ExtendLoose(bs, b);
      r := Coalesce(bp, |bs|);
      ExtendOff(bs, size);
      KeepsBytesTrans(m, m1, m2, LiveBlocks(bs), LiveBlocks(bs));
      KeepsBytesTrans(m, m2, h.mem[..], LiveBlocks(bs), LiveBlocks(bs));
    }

    /** Tags of a new last block, and the epilogue after it. */
    method AppendTail(bp: int, size: int)
      requires h.Valid() && Represents(h.mem[..], bp, blocks, false) && Good(Block(size, false)) && h.brk == bp + size
      modifies h.mem
      ensures Represents(h.mem[..], h.brk, blocks + [Block(size, false)], false)
      ensures SameOutside(old(h.mem[..]), h.mem[..], bp - 4, h.brk)
    {
      hide Word, Represents, Sum, SizeOf, AllocOf, Pack;
      ghost var m, b := h.mem[..], Block(size, false);
      Prologue(m, bp, blocks, false);
      PackFields(0, true);
      PackFields(size, false);
      h.PutTags(bp, size, false);
      ghost var r := h.mem[..];
      h.Put(h.NextBlkp(bp) - 4, Pack(0, true));
      TagsFrame(r, h.mem[..], h.brk - 4, h.brk, bp, b, false);
      Appended(m, h.mem[..], bp, blocks, b, false);
    }

    /** mm_free. */
    method Free(bp: int)
      requires Valid() && bp in LiveBlocks(blocks)
      modifies h.mem, heads, `lists, `indexed, `blocks
      ensures Valid() && blocks == Release(old(blocks), bp) && lists == ReleaseLists(old(lists), old(blocks), bp)
      ensures KeepsBytes(old(h.mem[..]), h.mem[..], LiveBlocks(old(blocks)) - {bp})
    {
      hide Represents, Word, PutWord, Indexed, At, Listed, Unlisted, SizesAscend, Sum, SumAlloc, Tags, Pack, SizeOf,
           AllocOf;
      ghost var m, bs, i := h.mem[..], blocks, Index(blocks, FIRST_BP, bp);
      Locate(bs, FIRST_BP, true, bp);
      NextNeighbour(m, h.brk, bs, i, false);
      FreedMaps(bs, i);
      PackFields(bs[i].size, true);
      var size := h.GetSize(bp - 4);
      ClearTag(h.NextBlkp(bp) - 4, i);
      ClearAllocated(bp, size, i);
      ghost var m1 := h.mem[..];
      FreedIndex(m, m1, h.brk, heads[..], lists, bs, i);
      blocks := bs[i := Block(size, false)];
      InsertBlock(bp, size);
      ghost var m2 := h.mem[..];
      var _ := Coalesce(bp, i);
      KeepsBytesTrans(m, m1, m2, LiveBlocks(bs) - {bp}, LiveBlocks(bs) - {bp});
      KeepsBytesTrans(m, m2, h.mem[..], LiveBlocks(bs) - {bp}, LiveBlocks(bs) - {bp});
    }

    /** UNSET_TAG on the header after block i, which carries no tag: nothing changes. */
    method ClearTag(p: int, ghost i: int)
      requires h.Valid() && Represents(h.mem[..], h.brk, blocks, false)
      requires 0 <= i < |blocks| && p == Off(blocks, i + 1) - 4
      modifies h.mem
      ensures h.mem[..] == old(h.mem[..])
    {
      hide Represents, Word, PutWord, TagOf, Pack;
      ghost var m := h.mem[..];
      HeaderUntagged(m, h.brk, blocks, i + 1, false);
      NextNeighbour(m, h.brk, blocks, i, false);
      PutWordIdempotent(m, p);
      h.Put(p, h.Get(p) - TagOf(h.Get(p)));
    }

    /** The tags written by mm_free. */
    method ClearAllocated(bp: int, size: int, ghost i: int)
      requires h.Valid() && Represents(h.mem[..], h.brk, blocks, false)
      requires 0 <= i < |blocks| && bp == Off(blocks, i) && size == blocks[i].size
      modifies h.mem
      ensures Represents(h.mem[..], h.brk, blocks[i := Block(size, false)], false)
      ensures SameOutside(old(h.mem[..]), h.mem[..], bp - 4, Off(blocks, i + 1) - 4)
    {
      hide Represents, Word, PutWord, Sum, Pack, SizeOf, AllocOf, TagOf;
      ghost var m := h.mem[..];
      NextNeighbour(m, h.brk, blocks, i, false);
      PackFields(size, blocks[i].alloc);
      PutTags(bp, size, false);
      Retag(m, h.mem[..], h.brk, blocks, i, i + 1, Block(size, false), false);
      assert blocks[i := Block(size, false)] == blocks[..i] + [Block(size, false)] + blocks[i + 1..];
    }

    /** mm_init, on an empty heap. */
    method Init() returns (status: int)
      requires h.Valid() && h.brk == 0 && heads.Length == LISTS
      modifies h.mem, h`brk, h`enomem, this, heads
      ensures status == 0 && Valid() && blocks == [Block(CHUNKSIZE, false)] && h.enomem == old(h.enomem)
      ensures lists == ExtendLists(NoLists(), [], CHUNKSIZE)
    {
      hide Word, PutWord, Represents, SizeOf, AllocOf, Pack, ExtendLists, Indexed;
      assert GrowBytes(CHUNKSIZE / 4) == CHUNKSIZE;
      hide GrowBytes;
      var list := 0;
      while list < LISTS
        invariant 0 <= list <= LISTS
        invariant forall l | 0 <= l < list :: heads[l] == 0
        modifies heads
      {
        heads[list] := 0;
        list := list + 1;
      }
      PackFields(OVERHEAD, true);
      PackFields(0, true);
      var p := h.Sbrk(16);
      status := -1;
      if p != -1 {
        h.Put(p, 0);
        h.Put(p + 4, Pack(DSIZE, true));
        h.Put(p + 8, Pack(DSIZE, true));
        h.Put(p + 12, Pack(0, true));
        heapListp := p + DSIZE;
        blocks, lists, indexed := [], NoLists(), map[];
        EmptyHeap(h.mem[..], false);
        EmptyIndex(h.mem[..], heads[..]);
        ExtendEffect([], CHUNKSIZE);
        var bp := ExtendHeap(CHUNKSIZE / 4);
        status := if bp == 0 then -1 else 0;
      }
    }
  }

  lemma EmptyIndex(m: seq<byte>, heads: seq<int>)
    requires |heads| == LISTS && forall l | 0 <= l < LISTS :: heads[l] == 0
    ensures Indexed(m, heads, NoLists(), map[])
  {
    forall l | 0 <= l < LISTS ensures ListOk(m, heads[l], NoLists()[l], map[], l) {
    }
  }

  /** The index around a stretch of blocks none of which is on a list. */
  lemma IndexAround(m: seq<byte>, r: seq<byte>, brk: int, heads: seq<int>, lists: seq<seq<int>>, some: map<int, int>, bs: seq<Block>, lo: int, hi: int)
    requires Represents(m, brk, bs, false) && Indexed(m, heads, lists, some) && Within(some, FreeBlocks(bs)) && 0 <= lo <= hi <= |bs|
    requires forall x | x in some :: !(lo <= Index(bs, FIRST_BP, x) < hi)
    requires SameOutside(m, r, Off(bs, lo) - 4, Off(bs, hi) - 4)
    ensures Indexed(r, heads, lists, some)
  {
    hide Indexed, Represents, At, Sum, SumAlloc;
    InHeap(m, brk, bs, false);
    forall x | x in some ensures 0 <= x && x + 8 <= |m| && (x + 8 <= Off(bs, lo) - 4 || Off(bs, hi) - 4 <= x) {
      FreeBlock(m, brk, bs, x, false);
      var j := Index(bs, FIRST_BP, x);
      OffBounds(bs, j);
      if j < lo {
        OffMonotone(bs, j + 1, lo);
      } else {
        OffMonotone(bs, hi, j);
      }
    }
    IndexFrame(m, r, heads, lists, some, Off(bs, lo) - 4, Off(bs, hi) - 4);
  }

  lemma PlacedIndex(m: seq<byte>, r: seq<byte>, brk: int, heads: seq<int>, lists: seq<seq<int>>, some: map<int, int>, bs: seq<Block>, i: int, asize: int)
    requires Represents(m, brk, bs, false) && Indexed(m, heads, lists, some)
    requires Canonical(bs) && 0 <= i < |bs| && Fits(bs[i], asize) && Good(Block(asize, true))
    requires some == FreeBlocks(bs) - {Off(bs, i)} && SameOutside(m, r, Off(bs, i) - 4, Off(bs, i + 1) - 4)
    ensures Indexed(r, heads, lists, some) && KeepsBytes(m, r, LiveBlocks(bs))
    ensures var rest := bs[i].size - asize;
      if rest >= MIN_BLOCK then Off(bs, i) + asize !in some && FreeBlocks(Blocks.Place(bs, i, asize)) == some[Off(bs, i) + asize := rest]
      else FreeBlocks(Blocks.Place(bs, i, asize)) == some
  {
    hide Indexed, Represents, Sum, SumAlloc;
    PlaceFree(bs, i, asize);
    forall x | x in some ensures !(i <= Index(bs, FIRST_BP, x) < i + 1) {
      Locate(bs, FIRST_BP, false, x);
    }
    IndexAround(m, r, brk, heads, lists, some, bs, i, i + 1);
    FreeIndices(bs, i, i + 1);
    FrameLive(m, r, bs, i, i + 1, LiveBlocks(bs));
    Located(bs, FIRST_BP, i);
    OffBounds(bs, i);
    if Off(bs, i) + asize in some {
      AtApart(bs, FIRST_BP, false, false, Off(bs, i), Off(bs, i) + asize);
    }
  }

  /** NEXT_BLKP after place has split block i. */
  lemma NextAfterPlace(m: seq<byte>, brk: int, bs: seq<Block>, i: int, asize: int)
    requires 0 <= i < |bs| && bs[i].size - asize >= MIN_BLOCK && Good(Block(asize, true))
    requires Represents(m, brk, Blocks.Place(bs, i, asize), false)
    ensures FIRST_BP <= Off(bs, i) <= |m| && NextBlkp(m, Off(bs, i)) == Off(bs, i) + asize
  {
    var c := Blocks.Place(bs, i, asize);
    assert c[..i] == bs[..i] && c[i] == Block(asize, true);
    NextNeighbour(m, brk, c, i, false);
  }

  lemma AppendedIndex(m: seq<byte>, r: seq<byte>, brk: int, heads: seq<int>, lists: seq<seq<int>>, bs: seq<Block>, b: Block)
    requires Represents(m, brk, bs, false) && Indexed(m, heads, lists, FreeBlocks(bs)) && Good(b) && !b.alloc
    requires SameOutside(m, r, brk - 4, brk + b.size)
    ensures Indexed(r, heads, lists, FreeBlocks(bs)) && KeepsBytes(m, r, LiveBlocks(bs))
    ensures FreeBlocks(bs + [b]) == FreeBlocks(bs)[brk := b.size] && brk !in FreeBlocks(bs) && LiveBlocks(bs + [b]) == LiveBlocks(bs)
    ensures Within(FreeBlocks(bs), FreeBlocks(bs + [b]))
  {
    hide Indexed, Represents, Sum, SumAlloc, At;
    InHeap(m, brk, bs, false);
    AppendFree(bs, b);
    forall x | x in FreeBlocks(bs) ensures 0 <= x && x + 8 <= |m| && x + 8 <= brk - 4 {
      FreeBlock(m, brk, bs, x, false);
    }
    IndexFrame(m, r, heads, lists, FreeBlocks(bs), brk - 4, brk + b.size);
    forall q | q in LiveBlocks(bs) ensures Index(bs, FIRST_BP, q) < |bs| {
      Locate(bs, FIRST_BP, true, q);
    }
    assert bs[..|bs|] == bs;
    FrameBelow(m, r, bs, |bs|, brk + b.size, LiveBlocks(bs));
  }

  lemma ExtendLoose(bs: seq<Block>, b: Block)
    requires Canonical(bs) && Good(b) && !b.alloc
    ensures Loose(bs + [b], |bs|)
  {
  }

  lemma FreedIndex(m: seq<byte>, r: seq<byte>, brk: int, heads: seq<int>, lists: seq<seq<int>>, bs: seq<Block>, i: int)
    requires Represents(m, brk, bs, false) && Indexed(m, heads, lists, FreeBlocks(bs)) && Canonical(bs)
    requires 0 <= i < |bs| && bs[i].alloc && SameOutside(m, r, Off(bs, i) - 4, Off(bs, i + 1) - 4)
    ensures Indexed(r, heads, lists, FreeBlocks(bs)) && KeepsBytes(m, r, LiveBlocks(bs) - {Off(bs, i)})
    ensures Within(FreeBlocks(bs), FreeBlocks(bs[i := Block(bs[i].size, false)]))
  {
    hide Indexed, Represents, Sum, SumAlloc, At;
    FreedMaps(bs, i);
    forall x | x in FreeBlocks(bs) ensures !(i <= Index(bs, FIRST_BP, x) < i + 1) {
      Locate(bs, FIRST_BP, false, x);
    }
    IndexAround(m, r, brk, heads, lists, FreeBlocks(bs), bs, i, i + 1);
    Located(bs, FIRST_BP, i);
    IndexInjective(bs, Off(bs, i));
    FrameLive(m, r, bs, i, i + 1, LiveBlocks(bs) - {Off(bs, i)});
  }

  /** Tags stored in either order by PUT over an untagged header. */
  lemma TagsPut(m: seq<byte>, r: seq<byte>, p: int, b: Block, w: int)
    requires 4 <= p && Good(b) && p + b.size - 4 <= |m| <= MAX_HEAP
    requires 0 <= Pack(b.size, b.alloc) < WORD_LIMIT && 0 <= w < WORD_LIMIT && FooterOk(w, b, false)
    requires var v, f := Pack(b.size, b.alloc), p + b.size - 8;
      r == PutWord(PutWord(m, p - 4, v), f, w) || r == PutWord(PutWord(m, f, w), p - 4, v)
    ensures Tags(r, p, b, false) && SameOutside(m, r, p - 4, p + b.size - 4)
  {
    hide Word, PutWord, TagOf, SizeOf, AllocOf, Pack, FooterOk;
    var v, f := Pack(b.size, b.alloc), p + b.size - 8;
    if r == PutWord(PutWord(m, p - 4, v), f, w) {
      TwoStores(m, r, p - 4, v, f, w, p - 4, p + b.size - 4);
    } else {
      TwoStores(m, r, f, w, p - 4, v, p - 4, p + b.size - 4);
    }
  }

  /** The run merged at i: block i, and its free neighbours. */
  lemma RunMembers(bs: seq<Block>, i: int)
    requires Loose(bs, i)
    ensures var lo, hi := MergeLo(bs, i), MergeHi(bs, i);
      && RunAddresses(bs, i) == {Off(bs, i), Off(bs, lo), Off(bs, hi - 1)}
      && Off(bs, i) in FreeBlocks(bs) && Off(bs, lo) in FreeBlocks(bs) && Off(bs, hi - 1) in FreeBlocks(bs)
      && FreeBlocks(bs)[Off(bs, lo)] == bs[lo].size && FreeBlocks(bs)[Off(bs, hi - 1)] == bs[hi - 1].size
      && Off(bs, lo) <= Off(bs, i) <= Off(bs, hi - 1)
      && (lo < i ==> Off(bs, lo) < Off(bs, i)) && (hi > i + 1 ==> Off(bs, i) < Off(bs, hi - 1))
  {
    var lo, hi := MergeLo(bs, i), MergeHi(bs, i);
    NotLive(bs, i);
    NotLive(bs, lo);
    NotLive(bs, hi - 1);
    OffBounds(bs, i);
    OffBounds(bs, lo);
    forall q ensures q in RunAddresses(bs, i) <==> q in {Off(bs, i), Off(bs, lo), Off(bs, hi - 1)} {
      if q in {Off(bs, i), Off(bs, lo), Off(bs, hi - 1)} {
        var k := if q == Off(bs, i) then i else if q == Off(bs, lo) then lo else hi - 1;
        assert lo <= k < hi && q == Off(bs, k);
      }
    }
  }

  /** The index while the merged block is on no list. */
  lemma MergedIndex(m: seq<byte>, r: seq<byte>, brk: int, heads: seq<int>, lists: seq<seq<int>>, some: map<int, int>, bs: seq<Block>, i: int)
    requires Represents(m, brk, bs, false) && Loose(bs, i) && Indexed(m, heads, lists, some)
    requires some == FreeBlocks(bs) - RunAddresses(bs, i)
    requires SameOutside(m, r, Off(bs, MergeLo(bs, i)) - 4, Off(bs, MergeHi(bs, i)) - 4)
    ensures Indexed(r, heads, lists, some) && KeepsBytes(m, r, LiveBlocks(bs))
    ensures var lo, hi, c := MergeLo(bs, i), MergeHi(bs, i), Blocks.Coalesce(bs, i);
      && FreeBlocks(c) == some[Off(bs, lo) := Off(bs, hi) - Off(bs, lo)] && Off(bs, lo) !in some && Within(some, FreeBlocks(c))
  {
    hide Indexed, Represents, At, Sum, SumAlloc;
    var lo, hi := MergeLo(bs, i), MergeHi(bs, i);
    CoalesceFrame(m, r, bs, i);
    CoalesceFree(bs, i);
    RunMembers(bs, i);
    forall x | x in some ensures !(lo <= Index(bs, FIRST_BP, x) < hi) {
      Locate(bs, FIRST_BP, false, x);
    }
    IndexAround(m, r, brk, heads, lists, some, bs, lo, hi);
  }

  /** A stray tag bit does not show in size or allocated bit. */
  lemma StrayTag(size: int, alloc: bool, w: int)
    requires size % 8 == 0
    ensures FooterOk(Pack(size, alloc) + TagOf(w), Block(size, alloc), false)
  {
    hide SizeOf, AllocOf, TagOf;
    TagBound(w);
    LowDigits();
    Fields(size, (if alloc then 1 else 0) + TagOf(w));
  }

  lemma SpreadApart(free: map<int, int>, n: int)
    requires Spread(free, n)
    ensures forall x, y | x in free && y in free && x != y :: x + 8 <= y || y + 8 <= x
  {
  }

  /** Element k of list l, in the terms of the code: a free block whose word 0 is the next one. */
  ghost predicate Entry(m: seq<byte>, s: seq<int>, free: map<int, int>, l: int, k: int)
    requires 0 <= k < |s|
  {
    0 < s[k] && s[k] + 8 <= |m| && s[k] in free && Class(free[s[k]]) == l
      && Word(m, s[k]) == Elem(s, k + 1) && Word(m, s[k] + 4) == Elem(s, k - 1)
  }

  lemma HeadAndLinks(m: seq<byte>, heads: seq<int>, lists: seq<seq<int>>, free: map<int, int>, l: int)
    requires Indexed(m, heads, lists, free) && 0 <= l < LISTS
    ensures |heads| == |lists| == LISTS
    ensures heads[l] == Elem(lists[l], 0) && Unique(lists[l])
    ensures forall k | 0 <= k < |lists[l]| :: Entry(m, lists[l], free, l, k)
  {
    hide Word, Class;
    assert ListOk(m, heads[l], lists[l], free, l);
    forall k | 0 <= k < |lists[l]| ensures Entry(m, lists[l], free, l, k) {
      assert LinkedAt(m, lists[l], k);
    }
  }

  /** InsertAscends for a list of the index. */
  lemma HeadInsertion(m: seq<byte>, s: seq<int>, free: map<int, int>, l: int, x: int, size: int)
    requires (forall k | 0 <= k < |s| :: Entry(m, s, free, l, k)) && x !in free
    ensures s != [] ==> s[0] in free
    ensures SizesAscend([x] + s, free[x := size]) <==> SizesAscend(s, free) && (s != [] ==> size <= free[s[0]])
  {
    forall k | 0 <= k < |s| ensures s[k] in free {
      assert Entry(m, s, free, l, k);
    }
    InsertAscends(s, free, x, size);
  }

  ghost predicate Within(some: map<int, int>, all: map<int, int>) {
    forall x | x in some :: x in all && some[x] == all[x]
  }

  /** Free blocks are payloads in memory, a minimum block apart. */
  lemma SpreadFree(m: seq<byte>, brk: int, bs: seq<Block>, some: map<int, int>)
    requires Represents(m, brk, bs, false) && Within(some, FreeBlocks(bs))
    ensures Spread(some, |m|)
  {
    forall x | x in some ensures 0 < x && x + 8 <= |m| && MIN_BLOCK <= some[x] <= MAX_HEAP {
      AtBounds(bs, FIRST_BP, false, x);
    }
    forall x, y | x in some && y in some && x < y ensures x + MIN_BLOCK <= y {
      AtBounds(bs, FIRST_BP, false, x);
      AtApart(bs, FIRST_BP, false, false, x, y);
    }
  }
}
