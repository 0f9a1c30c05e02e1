/**
 What the block operations mean to a client: the invariant they keep, which blocks they
 make live, and what freeing undoes.
 */
module Effects {
  import opened Words
  import opened Blocks

  // ------------------------------------------------------------------ helpers

  lemma AtSplice(pre: seq<Block>, mid: seq<Block>, post: seq<Block>, p: int, alloc: bool)
    ensures At(pre + mid + post, p, alloc) ==
            At(pre, p, alloc) + At(mid, p + Sum(pre), alloc) + At(post, p + Sum(pre) + Sum(mid), alloc)
    ensures Sum(pre + mid + post) == Sum(pre) + Sum(mid) + Sum(post)
    ensures SumAlloc(pre + mid + post) == SumAlloc(pre) + SumAlloc(mid) + SumAlloc(post)
  {
    AtConcat(pre + mid, post, p, alloc);
    AtConcat(pre, mid, p, alloc);
    SumConcat(pre + mid, post);
    SumConcat(pre, mid);
  }

  /** The maps of one and of two blocks. */
  lemma AtOne(b: Block, p: int, alloc: bool)
    ensures At([b], p, alloc) == if b.alloc == alloc then map[p := b.size] else map[]
    ensures Sum([b]) == b.size && SumAlloc([b]) == if b.alloc then b.size else 0
  {
    assert [b][1..] == [];
  }

  lemma AtTwo(b: Block, c: Block, p: int, alloc: bool)
    ensures At([b, c], p, alloc) == At([b], p, alloc) + At([c], p + b.size, alloc)
    ensures Sum([b, c]) == b.size + c.size
    ensures SumAlloc([b, c]) == SumAlloc([b]) + SumAlloc([c])
  {
    AtOne(b, p, alloc);
    AtOne(c, p + b.size, alloc);
    assert [b, c] == [b] + [c];
    AtConcat([b], [c], p, alloc);
    SumConcat([b], [c]);
  }

  lemma AtRange(bs: seq<Block>, p: int, alloc: bool)
    requires AllGood(bs)
    ensures forall q | q in At(bs, p, alloc) :: p <= q < p + Sum(bs)
  {
    forall q | q in At(bs, p, alloc) ensures p <= q < p + Sum(bs) {
      AtBounds(bs, p, alloc, q);
    }
  }

  /** Replacing a stretch of blocks by another of the same total size. */
  lemma SpliceMaps(bs: seq<Block>, lo: int, hi: int, mid: seq<Block>, alloc: bool)
    requires AllGood(bs) && AllGood(mid) && 0 <= lo <= hi <= |bs| && Sum(mid) == Sum(bs[lo..hi])
    ensures var r := bs[..lo] + mid + bs[hi..];
      && Sum(r) == Sum(bs)
      && SumAlloc(r) == SumAlloc(bs) - SumAlloc(bs[lo..hi]) + SumAlloc(mid)
      && var p := Off(bs, lo);
      && At(r, FIRST_BP, alloc) == (At(bs, FIRST_BP, alloc) - At(bs[lo..hi], p, alloc).Keys) + At(mid, p, alloc)
  {
    var pre, was, post := bs[..lo], bs[lo..hi], bs[hi..];
    ThreeParts(bs, lo, hi);
    GoodConcat(pre + was, post);
    GoodConcat(pre, was);
    hide AllGood;
    SpliceMiddle(pre, was, post, mid, alloc);
  }

  lemma SpliceMiddle(pre: seq<Block>, was: seq<Block>, post: seq<Block>, mid: seq<Block>, alloc: bool)
    requires AllGood(pre) && AllGood(was) && AllGood(post) && AllGood(mid) && Sum(mid) == Sum(was)
    ensures var bs, r := pre + was + post, pre + mid + post;
      && Sum(r) == Sum(bs)
      && SumAlloc(r) == SumAlloc(bs) - SumAlloc(was) + SumAlloc(mid)
      && var p := FIRST_BP + Sum(pre);
      && At(r, FIRST_BP, alloc) == (At(bs, FIRST_BP, alloc) - At(was, p, alloc).Keys) + At(mid, p, alloc)
  {
    hide Sum, SumAlloc, At;
    var p := FIRST_BP + Sum(pre);
    var p' := p + Sum(was);
    AtSplice(pre, was, post, FIRST_BP, alloc);
    AtSplice(pre, mid, post, FIRST_BP, alloc);
    AtRange(pre, FIRST_BP, alloc);
    AtRange(was, p, alloc);
    AtRange(mid, p, alloc);
    AtRange(post, p', alloc);
    ReplaceMiddle(At(pre, FIRST_BP, alloc), At(was, p, alloc), At(post, p', alloc), At(mid, p, alloc), p, p');
  }

  lemma ReplaceMiddle(a: map<int, int>, b: map<int, int>, c: map<int, int>, d: map<int, int>, p: int, p': int)
    requires forall q | q in a :: q < p
    requires forall q | q in b || q in d :: p <= q < p'
    requires forall q | q in c :: p' <= q
    ensures a + d + c == (a + b + c - b.Keys) + d
  {
    var l, r := a + d + c, (a + b + c - b.Keys) + d;
    assert forall q :: q in l <==> q in r;
    assert forall q | q in l :: l[q] == r[q];
  }

  // ------------------------------------------------------------------ place

  lemma PlaceEffect(bs: seq<Block>, i: int, asize: int)
    requires Canonical(bs) && 0 <= i < |bs| && Fits(bs[i], asize)
    requires MIN_BLOCK <= asize && asize % 8 == 0
    ensures var r, q := Place(bs, i, asize), Off(bs, i);
      && Canonical(r) && Sum(r) == Sum(bs)
      && q !in LiveBlocks(bs) && q in LiveBlocks(r)
      && asize <= LiveBlocks(r)[q] <= asize + 8
      && LiveBlocks(r) == LiveBlocks(bs)[q := LiveBlocks(r)[q]]
      && SumAlloc(r) == SumAlloc(bs) + LiveBlocks(r)[q]
  {
    hide Sum, SumAlloc, At;
    var b := bs[i];
    var mid := PlaceOne(b, asize);
    var p := Off(bs, i);
    assert bs[i..i + 1] == [b];
    AtOne(b, p, true);
    PlaceOneMaps(b, asize, p, true);
    SpliceMaps(bs, i, i + 1, mid, true);
    NotLive(bs, i);
    PlaceCanonical(bs, i, asize);
  }

  lemma PlaceOneMaps(b: Block, asize: int, p: int, alloc: bool)
    requires Good(b) && Fits(b, asize) && MIN_BLOCK <= asize && asize % 8 == 0
    ensures var mid := PlaceOne(b, asize);
      && AllGood(mid) && Sum(mid) == b.size && SumAlloc(mid) == mid[0].size && asize <= mid[0].size <= asize + 8
      && At(mid, p, true) == map[p := mid[0].size]
      && At(mid, p, false) == if |mid| == 2 then map[p + asize := b.size - asize] else map[]
  {
    var mid := PlaceOne(b, asize);
    AtOne(mid[0], p, true);
    AtOne(mid[0], p, false);
    if b.size - asize >= MIN_BLOCK {
      AtTwo(mid[0], mid[1], p, true);
      AtTwo(mid[0], mid[1], p, false);
      AtOne(mid[1], p + asize, true);
      AtOne(mid[1], p + asize, false);
    }
  }

  lemma PlaceCanonical(bs: seq<Block>, i: int, asize: int)
    requires Canonical(bs) && 0 <= i < |bs| && Fits(bs[i], asize)
    requires MIN_BLOCK <= asize && asize % 8 == 0
    ensures Canonical(Place(bs, i, asize))
  {
  }

  /** A free block's address is not a live one. */
  lemma NotLive(bs: seq<Block>, i: int)
    requires AllGood(bs) && 0 <= i < |bs|
    ensures var q := Off(bs, i);
      && q in At(bs, FIRST_BP, bs[i].alloc) && At(bs, FIRST_BP, bs[i].alloc)[q] == bs[i].size
      && q !in At(bs, FIRST_BP, !bs[i].alloc)
  {
    Located(bs, FIRST_BP, i);
    var q := Off(bs, i);
    if q in At(bs, FIRST_BP, !bs[i].alloc) {
      Locate(bs, FIRST_BP, !bs[i].alloc, q);
    }
  }

  // ------------------------------------------------------------------ coalesce

  /** Free blocks may be adjacent only to block i, which is free. */
  ghost predicate Loose(bs: seq<Block>, i: int) {
    && AllGood(bs) && 0 <= i < |bs| && !bs[i].alloc
    && forall k | 0 < k < |bs| && k != i && k != i + 1 :: bs[k - 1].alloc || bs[k].alloc
  }

  lemma MergedRun(bs: seq<Block>, i: int)
    requires AllGood(bs) && 0 <= i < |bs| && !bs[i].alloc
    ensures var lo, hi := MergeLo(bs, i), MergeHi(bs, i);
      && (forall k | lo <= k < hi :: !bs[k].alloc)
      && Good(Block(Sum(bs[lo..hi]), false)) && bs[i].size <= Sum(bs[lo..hi])
      && SumAlloc(bs[lo..hi]) == 0 && At(bs[lo..hi], Off(bs, lo), true) == map[]
  {
    var lo, hi := MergeLo(bs, i), MergeHi(bs, i);
    var run := bs[lo..hi];
    assert run == (if lo < i then [bs[i - 1]] else []) + [bs[i]] + (if i + 1 < hi then [bs[i + 1]] else []);
    SumBounds(run);
    AllFree(run, Off(bs, lo));
    var j := i - lo;
    SumSplit(run, j);
    SumBounds(run[..j]);
    SumBounds(run[j + 1..]);
    assert run[j..][1..] == run[j + 1..];
  }

  /** Free blocks make nothing live. */
  lemma {:induction false} AllFree(bs: seq<Block>, p: int)
    requires forall k | 0 <= k < |bs| :: !bs[k].alloc
    ensures SumAlloc(bs) == 0 && At(bs, p, true) == map[]
  {
    if bs != [] {
      AllFree(bs[1..], p + bs[0].size);
    }
  }

  lemma CoalesceEffect(bs: seq<Block>, i: int)
    requires Loose(bs, i)
    ensures var r := Coalesce(bs, i);
      Canonical(r) && Sum(r) == Sum(bs) && LiveBlocks(r) == LiveBlocks(bs) && SumAlloc(r) == SumAlloc(bs)
  {
    var lo, hi := MergeLo(bs, i), MergeHi(bs, i);
    var merged := Block(Sum(bs[lo..hi]), false);
    MergedRun(bs, i);
    AtOne(merged, Off(bs, lo), true);
    SpliceMaps(bs, lo, hi, [merged], true);
    CoalesceCanonical(bs, i);
  }

  lemma CoalesceCanonical(bs: seq<Block>, i: int)
    requires Loose(bs, i)
    ensures Canonical(Coalesce(bs, i))
  {
    MergedRun(bs, i);
    var lo, hi := MergeLo(bs, i), MergeHi(bs, i);
    var r := Coalesce(bs, i);
    forall k | 0 < k < |r| ensures r[k - 1].alloc || r[k].alloc {
      if k < lo {
        assert r[k - 1] == bs[k - 1] && r[k] == bs[k];
      } else if k > lo + 1 {
        assert r[k - 1] == bs[k - 1 - lo - 1 + hi] && r[k] == bs[k - lo - 1 + hi];
      }
    }
  }

  // ------------------------------------------------------------------ free

  lemma ReleaseEffect(bs: seq<Block>, q: int)
    requires Canonical(bs) && q in LiveBlocks(bs)
    ensures var r := Release(bs, q);
      && Canonical(r) && Sum(r) == Sum(bs)
      && LiveBlocks(r) == LiveBlocks(bs) - {q}
      && SumAlloc(r) == SumAlloc(bs) - LiveBlocks(bs)[q]
  {
    Locate(bs, FIRST_BP, true, q);
    var i := Index(bs, FIRST_BP, q);
    FreedMaps(bs, i);
    CoalesceEffect(bs[i := Block(bs[i].size, false)], i);
  }

  /** Clearing an allocated bit, before any merging. */
  lemma FreedMaps(bs: seq<Block>, i: int)
    requires Canonical(bs) && 0 <= i < |bs| && bs[i].alloc
    ensures var r, q := bs[i := Block(bs[i].size, false)], Off(bs, i);
      && Loose(r, i) && Sum(r) == Sum(bs) && Off(r, i) == q
      && q in LiveBlocks(bs) && LiveBlocks(r) == LiveBlocks(bs) - {q}
      && SumAlloc(r) == SumAlloc(bs) - bs[i].size
      && q !in FreeBlocks(bs) && FreeBlocks(r) == FreeBlocks(bs)[q := bs[i].size]
  {
    hide Sum, SumAlloc, At;
    var b, f := bs[i], Block(bs[i].size, false);
    var q := Off(bs, i);
    AtOne(b, q, true);
    AtOne(f, q, true);
    AtOne(b, q, false);
    AtOne(f, q, false);
    assert bs[i..i + 1] == [b];
    assert bs[i := f] == bs[..i] + [f] + bs[i + 1..];
    assert bs[i := f][..i] == bs[..i];
    SpliceMaps(bs, i, i + 1, [f], true);
    SpliceMaps(bs, i, i + 1, [f], false);
    NotLive(bs, i);
  }

  // ------------------------------------------------------------------ extend

  lemma ExtendEffect(bs: seq<Block>, size: int)
    requires Canonical(bs) && Good(Block(size, false))
    ensures var r := Extend(bs, size);
      && Canonical(r) && Sum(r) == Sum(bs) + size && LiveBlocks(r) == LiveBlocks(bs) && SumAlloc(r) == SumAlloc(bs)
      && r == GrownTail(bs, size) && r != [] && Fits(r[|r| - 1], size)
  {
    var b := Block(size, false);
    AtOne(b, FIRST_BP + Sum(bs), true);
    AtConcat(bs, [b], FIRST_BP, true);
    SumConcat(bs, [b]);
    CoalesceEffect(bs + [b], |bs|);
    ExtendIsGrownTail(bs, size);
  }

  /** The last block is free and larger, or a free block is appended. */
  function GrownTail(bs: seq<Block>, size: int): seq<Block> {
    if bs != [] && !bs[|bs| - 1].alloc then bs[|bs| - 1 := Block(bs[|bs| - 1].size + size, false)]
    else bs + [Block(size, false)]
  }

  lemma ExtendIsGrownTail(bs: seq<Block>, size: int)
    ensures Extend(bs, size) == GrownTail(bs, size)
  {
    hide Sum, SumAlloc, At;
    var b, n := Block(size, false), |bs|;
    var loose := bs + [b];
    assert MergeHi(loose, n) == n + 1 && loose[n + 1..] == [];
    if n > 0 && !bs[n - 1].alloc {
      assert MergeLo(loose, n) == n - 1;
      assert loose[n - 1..n + 1] == [bs[n - 1], b] && loose[..n - 1] == bs[..n - 1];
      AtTwo(bs[n - 1], b, 0, true);
    } else {
      assert MergeLo(loose, n) == n;
      assert loose[n..n + 1] == [b] && loose[..n] == bs;
      AtOne(b, 0, true);
    }
  }

  // ------------------------------------------------------------------ malloc

  /**
   The rounding is right, in 32-bit arithmetic, exactly for the requests that leave room
   to round: beyond that the sum wraps and the block is too small.
   */
  lemma AdjustedSizeExact(size: int)
    requires 0 < size < WORD_LIMIT
    ensures size + OVERHEAD <= AdjustedSize(size) <==> size <= WORD_LIMIT - 16
    ensures size <= WORD_LIMIT - 16 ==>
              AdjustedSize(size) <= size + 15 && Good(Block(AdjustedSize(size), true))
  {
  }

  /** Beyond that the size asked for leaves no payload byte at all. */
  lemma AdjustedSizeWraps(size: int)
    requires WORD_LIMIT - 16 < size < WORD_LIMIT
    ensures AdjustedSize(size) == if size < WORD_LIMIT - 7 then 0 else OVERHEAD
  {
    var sum := size + OVERHEAD + (DSIZE - 1);
    assert sum % WORD_LIMIT == sum - WORD_LIMIT;
  }

  /** The search returns the lowest fitting block and misses none. */
  lemma {:induction false} FirstFitIsLowest(bs: seq<Block>, asize: int)
    ensures var k := FirstFit(bs, asize);
      && (k < |bs| ==> Fits(bs[k], asize))
      && forall j | 0 <= j < k :: !Fits(bs[j], asize)
  {
    if bs != [] && !Fits(bs[0], asize) {
      FirstFitIsLowest(bs[1..], asize);
      var k := FirstFit(bs, asize);
      forall j | 0 <= j < k ensures !Fits(bs[j], asize) {
        if j > 0 {
          assert bs[j] == bs[1..][j - 1];
        }
      }
    }
  }

  /** Whether a request must grow the heap, and whether it then can. */
  ghost predicate NeedsGrowth(bs: seq<Block>, size: int) {
    forall b | b in bs :: !Fits(b, AdjustedSize(size))
  }

  function Growth(size: int): int {
    Max(AdjustedSize(size), CHUNKSIZE)
  }

  lemma FitExists(bs: seq<Block>, size: int)
    ensures NeedsGrowth(bs, size) <==> FirstFit(bs, AdjustedSize(size)) == |bs|
  {
    FirstFitIsLowest(bs, AdjustedSize(size));
  }

  /**
   mm_malloc.  NULL exactly when nothing fits and the heap may not grow, and then nothing
   changes; otherwise one new live block appears, every other live block stays as it was,
   and the heap grows by exactly the growth amount when, and only when, nothing fitted.
   */
  lemma AllocateEffect(bs: seq<Block>, size: int)
    requires Canonical(bs) && 0 < size <= WORD_LIMIT - 16
    ensures var r := Allocate(bs, size);
      && (r.bp == 0 <==> NeedsGrowth(bs, size) && HeapSize(bs) + Growth(size) > MAX_HEAP)
      && (r.bp == 0 ==> r.blocks == bs)
      && (r.bp != 0 ==>
            && Canonical(r.blocks)
            && r.bp !in LiveBlocks(bs) && r.bp in LiveBlocks(r.blocks) && r.bp % 8 == 0
            && size + OVERHEAD <= LiveBlocks(r.blocks)[r.bp] <= size + 23
            && LiveBlocks(r.blocks) == LiveBlocks(bs)[r.bp := LiveBlocks(r.blocks)[r.bp]]
            && SumAlloc(r.blocks) == SumAlloc(bs) + LiveBlocks(r.blocks)[r.bp]
            && HeapSize(r.blocks) == HeapSize(bs) + if NeedsGrowth(bs, size) then Growth(size) else 0)
  {
    hide Sum, SumAlloc, At, Place, Extend, FirstFit;
    var asize := AdjustedSize(size);
    AdjustedSizeExact(size);
    FitExists(bs, size);
    FirstFitIsLowest(bs, asize);
    var k := FirstFit(bs, asize);
    if k < |bs| {
      PlaceEffect(bs, k, asize);
      OffBounds(bs, k);
    } else if HeapSize(bs) + Growth(size) <= MAX_HEAP {
      ExtendEffect(bs, Growth(size));
      var grown := Extend(bs, Growth(size));
      PlaceEffect(grown, |grown| - 1, asize);
      OffBounds(grown, |grown| - 1);
    }
  }

  /**
   Where mm_malloc puts the block: in the lowest block that is free and large enough, cut off
   its front; in the last block of the grown heap when there is none.
   */
  lemma AllocateLowest(bs: seq<Block>, size: int) returns (k: int)
    requires Canonical(bs) && 0 < size <= WORD_LIMIT - 16
    ensures var asize, r := AdjustedSize(size), Allocate(bs, size);
      && 0 <= k <= |bs| && (forall j | 0 <= j < k :: bs[j].alloc || bs[j].size < asize)
      && (k < |bs| ==>
            && !bs[k].alloc && asize <= bs[k].size && r.bp == Off(bs, k)
            && r.blocks == bs[..k] + (if bs[k].size - asize >= 16 then [Block(asize, true), Block(bs[k].size - asize, false)]
                                      else [Block(bs[k].size, true)]) + bs[k + 1..])
    ensures var asize, r := AdjustedSize(size), Allocate(bs, size);
      var more := if asize < 4096 then 4096 else asize;
      k == |bs| ==>
        if HeapSize(bs) + more > MAX_HEAP then r == Allocation(bs, 0)
        else
          var grown := GrownTail(bs, more);
          && grown != [] && r.bp == Off(grown, |grown| - 1)
          && r.blocks == Place(grown, |grown| - 1, asize)
  {
    var asize := AdjustedSize(size);
    FirstFitIsLowest(bs, asize);
    k := FirstFit(bs, asize);
    ExtendIsGrownTail(bs, Growth(size));
    forall j | 0 <= j < k ensures bs[j].alloc || bs[j].size < asize {
      assert !Fits(bs[j], asize);
    }
  }

  // ------------------------------------------------------------------ undo

  /** Freeing a block just placed gives back the free block it was cut from. */
  lemma PlaceUndone(bs: seq<Block>, i: int, asize: int)
    requires Canonical(bs) && 0 <= i < |bs| && Fits(bs[i], asize)
    requires MIN_BLOCK <= asize && asize % 8 == 0
    ensures Release(Place(bs, i, asize), Off(bs, i)) == bs
  {
    hide Sum, SumAlloc, At, Index, Coalesce;
    var r := Place(bs, i, asize);
    PlaceCanonical(bs, i, asize);
    assert r[..i] == bs[..i];
    Located(r, FIRST_BP, i);
    assert i + 1 < |bs| ==> bs[i + 1].alloc;
    assert i > 0 ==> bs[i - 1].alloc;
    if bs[i].size - asize >= MIN_BLOCK {
      SplitMerged(bs, i, asize);
    } else {
      assert r[i := Block(r[i].size, false)] == bs;
      CoalesceAlone(bs, i);
    }
  }

  /** A free block between live neighbours merges with nothing. */
  lemma CoalesceAlone(bs: seq<Block>, i: int)
    requires 0 <= i < |bs| && !bs[i].alloc && MergeLo(bs, i) == i && MergeHi(bs, i) == i + 1
    ensures Coalesce(bs, i) == bs
  {
    AtOne(bs[i], 0, true);
    assert bs[i..i + 1] == [bs[i]];
  }

  /** The two parts of a split block merge back when both are free. */
  lemma SplitMerged(bs: seq<Block>, i: int, asize: int)
    requires 0 <= i < |bs| && !bs[i].alloc && bs[i].size - asize >= MIN_BLOCK && (i > 0 ==> bs[i - 1].alloc)
    ensures FreeIndex(Place(bs, i, asize), i) == bs
  {
    hide Sum, SumAlloc, At;
    var a, b := Block(asize, false), Block(bs[i].size - asize, false);
    var r := Place(bs, i, asize);
    var f := r[i := a];
    assert r[i] == Block(asize, true);
    assert f == bs[..i] + [a, b] + bs[i + 1..];
    assert MergeLo(f, i) == i && MergeHi(f, i) == i + 2;
    assert f[i..i + 2] == [a, b] && f[..i] == bs[..i] && f[i + 2..] == bs[i + 1..];
    AtTwo(a, b, 0, true);
  }

  /**
   Allocate then free: the block sequence is back exactly when the heap did not grow;
   otherwise the only difference is that the trailing free block has appeared or grown.
   */
  lemma AllocateUndone(bs: seq<Block>, size: int)
    requires Canonical(bs) && 0 < size <= WORD_LIMIT - 16 && Allocate(bs, size).bp != 0
    ensures var r := Allocate(bs, size);
      Release(r.blocks, r.bp) == if NeedsGrowth(bs, size) then Extend(bs, Growth(size)) else bs
  {
    var asize := AdjustedSize(size);
    AdjustedSizeExact(size);
    FitExists(bs, size);
    FirstFitIsLowest(bs, asize);
    var k := FirstFit(bs, asize);
    if k < |bs| {
      PlaceUndone(bs, k, asize);
    } else {
      ExtendEffect(bs, Growth(size));
      var grown := Extend(bs, Growth(size));
      PlaceUndone(grown, |grown| - 1, asize);
    }
  }
}
