/**
 The heap seen as the sequence of its user blocks, in address order, and what each
 allocator operation does to that sequence.  Both allocators are proved against these
 functions; what the functions mean is proved here.
 */
module Blocks {
  import opened Words

  /** A block: its whole size in bytes, tags included, and its allocated bit. */
  datatype Block = Block(size: int, alloc: bool)

  const DSIZE := 8
  const OVERHEAD := 8
  const CHUNKSIZE := 4096
  const MIN_BLOCK := 16

  /** The bytes before the first user payload: padding, prologue and one header. */
  const FIRST_BP := 16

  /** config.h: 20 MB. */
  const MAX_HEAP := 20 * 0x10_0000

  predicate Good(b: Block) {
    MIN_BLOCK <= b.size && b.size % 8 == 0
  }

  predicate AllGood(bs: seq<Block>) {
    forall i | 0 <= i < |bs| :: Good(bs[i])
  }

  ghost predicate NoAdjacentFree(bs: seq<Block>) {
    forall i | 0 < i < |bs| :: bs[i - 1].alloc || bs[i].alloc
  }

  /** The block structure every reachable heap has. */
  ghost predicate Canonical(bs: seq<Block>) {
    AllGood(bs) && NoAdjacentFree(bs)
  }

  /** Total size in bytes. */
  function Sum(bs: seq<Block>): int {
    if bs == [] then 0 else bs[0].size + Sum(bs[1..])
  }

  /** Total size of the allocated blocks. */
  function SumAlloc(bs: seq<Block>): int {
    if bs == [] then 0 else (if bs[0].alloc then bs[0].size else 0) + SumAlloc(bs[1..])
  }

  /** Total size of the free blocks. */
  function SumFree(bs: seq<Block>): int {
    if bs == [] then 0 else (if bs[0].alloc then 0 else bs[0].size) + SumFree(bs[1..])
  }

  /** Payload address of block i. */
  function Off(bs: seq<Block>, i: int): int
    requires 0 <= i <= |bs|
  {
    FIRST_BP + Sum(bs[..i])
  }

  /** mem_heapsize() for a heap of these user blocks. */
  function HeapSize(bs: seq<Block>): int {
    FIRST_BP + Sum(bs)
  }

  /** The blocks with the given allocated bit, by payload address, when the first payload is at p. */
  function At(bs: seq<Block>, p: int, alloc: bool): map<int, int> {
    if bs == [] then map[]
    else (if bs[0].alloc == alloc then map[p := bs[0].size] else map[]) + At(bs[1..], p + bs[0].size, alloc)
  }

  /** The live blocks: payload address to block size. */
  function LiveBlocks(bs: seq<Block>): map<int, int> {
    At(bs, FIRST_BP, true)
  }

  /** The free blocks: payload address to block size. */
  function FreeBlocks(bs: seq<Block>): map<int, int> {
    At(bs, FIRST_BP, false)
  }

  /** Position of the block whose payload is at q, |bs| when there is none. */
  function Index(bs: seq<Block>, p: int, q: int): (i: int)
    ensures 0 <= i <= |bs|
  {
    if bs == [] || p == q then 0 else 1 + Index(bs[1..], p + bs[0].size, q)
  }

  // ---------------------------------------------------------------- operations

  /** The block size for a request of `size` bytes, in 32-bit arithmetic. */
  function AdjustedSize(size: int): int {
    if size <= DSIZE then DSIZE + OVERHEAD
    else DSIZE * ((size + OVERHEAD + (DSIZE - 1)) % WORD_LIMIT / DSIZE)
  }

  function Max(x: int, y: int): (r: int)
    ensures x <= r && y <= r && (r == x || r == y)
  {
    if x > y then x else y
  }

  function Min(x: int, y: int): (r: int)
    ensures r <= x && r <= y && (r == x || r == y)
  {
    if x < y then x else y
  }

  /** What a free block becomes when asize bytes of it are allocated. */
  function PlaceOne(b: Block, asize: int): seq<Block> {
    if b.size - asize >= MIN_BLOCK then [Block(asize, true), Block(b.size - asize, false)]
    else [Block(b.size, true)]
  }

  function Place(bs: seq<Block>, i: int, asize: int): seq<Block>
    requires 0 <= i < |bs|
  {
    bs[..i] + PlaceOne(bs[i], asize) + bs[i + 1..]
  }

  /** First block of the run of free blocks that coalescing at i merges. */
  function MergeLo(bs: seq<Block>, i: int): (lo: int)
    requires 0 <= i < |bs|
    ensures 0 <= lo <= i
  {
    if 0 < i && !bs[i - 1].alloc then i - 1 else i
  }

  /** One past the last block of that run. */
  function MergeHi(bs: seq<Block>, i: int): (hi: int)
    requires 0 <= i < |bs|
    ensures i < hi <= |bs|
  {
    if i + 1 < |bs| && !bs[i + 1].alloc then i + 2 else i + 1
  }

  function Coalesce(bs: seq<Block>, i: int): seq<Block>
    requires 0 <= i < |bs|
  {
    var lo, hi := MergeLo(bs, i), MergeHi(bs, i);
    bs[..lo] + [Block(Sum(bs[lo..hi]), false)] + bs[hi..]
  }

  function FreeIndex(bs: seq<Block>, i: int): seq<Block>
    requires 0 <= i < |bs|
  {
    Coalesce(bs[i := Block(bs[i].size, false)], i)
  }

  /** mm_free(q). */
  function Release(bs: seq<Block>, q: int): seq<Block> {
    var i := Index(bs, FIRST_BP, q);
    if i < |bs| then FreeIndex(bs, i) else bs
  }

  /** What extend_heap asks mem_sbrk for: an even number of words, in 32-bit arithmetic. */
  function GrowBytes(words: int): int {
    (if words % 2 == 1 then (words + 1) * 4 else words * 4) % WORD_LIMIT
  }

  function Extend(bs: seq<Block>, size: int): seq<Block> {
    Coalesce(bs + [Block(size, false)], |bs|)
  }

  predicate Fits(b: Block, asize: int) {
    !b.alloc && asize <= b.size
  }

  /** Position of the first block that fits, |bs| when none does. */
  function FirstFit(bs: seq<Block>, asize: int): (k: int)
    ensures 0 <= k <= |bs|
  {
    if bs == [] || Fits(bs[0], asize) then 0 else 1 + FirstFit(bs[1..], asize)
  }

  /** The block sequence and the returned pointer, 0 for NULL. */
  datatype Allocation = Allocation(blocks: seq<Block>, bp: int)

  /** mm_malloc(size) for a nonzero size. */
  function Allocate(bs: seq<Block>, size: int): Allocation {
    var asize := AdjustedSize(size);
    var k := FirstFit(bs, asize);
    if k < |bs| then Allocation(Place(bs, k, asize), Off(bs, k))
    else
      var ext := Max(asize, CHUNKSIZE);
      if HeapSize(bs) + ext > MAX_HEAP then Allocation(bs, 0)
      else
        var grown := Extend(bs, ext);
        Allocation(Place(grown, |grown| - 1, asize), Off(grown, |grown| - 1))
  }

  // ------------------------------------------------------- sums and addresses

  lemma GoodConcat(a: seq<Block>, b: seq<Block>)
    ensures AllGood(a + b) <==> AllGood(a) && AllGood(b)
  {
    if AllGood(a + b) {
      forall i | 0 <= i < |a| ensures Good(a[i]) {
        assert (a + b)[i] == a[i];
      }
      forall i | 0 <= i < |b| ensures Good(b[i]) {
        assert (a + b)[|a| + i] == b[i];
      }
    }
  }

  lemma {:induction false} SumConcat(a: seq<Block>, b: seq<Block>)
    ensures Sum(a + b) == Sum(a) + Sum(b)
    ensures SumAlloc(a + b) == SumAlloc(a) + SumAlloc(b)
  {
    if a == [] {
      assert a + b == b;
    } else {
      assert (a + b)[1..] == a[1..] + b;
      SumConcat(a[1..], b);
    }
  }

  lemma {:induction false} SumBounds(bs: seq<Block>)
    requires AllGood(bs)
    ensures 0 <= SumAlloc(bs) <= Sum(bs)
    ensures MIN_BLOCK * |bs| <= Sum(bs)
    ensures Sum(bs) % 8 == 0
  {
    if bs != [] {
      SumBounds(bs[1..]);
    }
  }

  lemma {:induction false} SumAllocAndFree(bs: seq<Block>)
    ensures SumAlloc(bs) + SumFree(bs) == Sum(bs)
  {
    if bs != [] {
      SumAllocAndFree(bs[1..]);
    }
  }

  lemma SumSplit(bs: seq<Block>, i: int)
    requires 0 <= i <= |bs|
    ensures Sum(bs) == Sum(bs[..i]) + Sum(bs[i..])
  {
    SumConcat(bs[..i], bs[i..]);
    assert bs[..i] + bs[i..] == bs;
  }

  /** A sequence in three parts. */
  lemma ThreeParts(bs: seq<Block>, lo: int, hi: int)
    requires 0 <= lo <= hi <= |bs|
    ensures bs == bs[..lo] + bs[lo..hi] + bs[hi..] && bs[..hi] == bs[..lo] + bs[lo..hi]
  {
  }

  lemma SumStep(bs: seq<Block>, i: int)
    requires 0 <= i < |bs|
    ensures Sum(bs[..i + 1]) == Sum(bs[..i]) + bs[i].size
  {
    SumConcat(bs[..i], [bs[i]]);
    assert bs[..i + 1] == bs[..i] + [bs[i]];
    assert Sum([bs[i]]) == bs[i].size + Sum([]);
  }

  /** The offset of a block: aligned, after the prologue, with the block inside the heap. */
  lemma OffBounds(bs: seq<Block>, i: int)
    requires AllGood(bs) && 0 <= i < |bs|
    ensures FIRST_BP <= Off(bs, i) && Off(bs, i) % 8 == 0
    ensures Off(bs, i + 1) == Off(bs, i) + bs[i].size <= HeapSize(bs)
    ensures Off(bs, |bs|) == HeapSize(bs)
  {
    SumStep(bs, i);
    SumBounds(bs[..i]);
    SumSplit(bs, i + 1);
    SumBounds(bs[i + 1..]);
    assert bs[..|bs|] == bs;
  }

  // ------------------------------------------------------------- address maps

  lemma MapUnionAssociative(x: map<int, int>, y: map<int, int>, z: map<int, int>)
    ensures (x + y) + z == x + (y + z)
  {
  }

  lemma {:induction false} AtConcat(a: seq<Block>, b: seq<Block>, p: int, alloc: bool)
    ensures At(a + b, p, alloc) == At(a, p, alloc) + At(b, p + Sum(a), alloc)
  {
    if a == [] {
      assert a + b == b;
    } else {
      assert (a + b)[1..] == a[1..] + b;
      AtConcat(a[1..], b, p + a[0].size, alloc);
      MapUnionAssociative(if a[0].alloc == alloc then map[p := a[0].size] else map[],
                          At(a[1..], p + a[0].size, alloc), At(b, p + Sum(a), alloc));
    }
  }

  lemma {:induction false} AtBounds(bs: seq<Block>, p: int, alloc: bool, q: int)
    requires AllGood(bs) && q in At(bs, p, alloc)
    ensures p <= q && q + At(bs, p, alloc)[q] <= p + Sum(bs)
    ensures At(bs, p, alloc)[q] >= MIN_BLOCK && At(bs, p, alloc)[q] % 8 == 0
    ensures (q - p) % 8 == 0
  {
    SumBounds(bs[1..]);
    if q in At(bs[1..], p + bs[0].size, alloc) {
      AtBounds(bs[1..], p + bs[0].size, alloc, q);
    }
  }

  /** Distinct blocks do not overlap. */
  lemma {:induction false} AtApart(bs: seq<Block>, p: int, x: bool, y: bool, q: int, r: int)
    requires AllGood(bs) && q in At(bs, p, x) && r in At(bs, p, y)
    requires q < r || (q == r && x != y)
    ensures q + At(bs, p, x)[q] <= r
  {
    var rest, p' := bs[1..], p + bs[0].size;
    if q in At(rest, p', x) {
      AtBounds(rest, p', x, q);
    }
    if r in At(rest, p', y) {
      AtBounds(rest, p', y, r);
      if q in At(rest, p', x) {
        AtApart(rest, p', x, y, q, r);
      }
    }
  }

  /** An address in a map names the block that Index finds. */
  lemma {:induction false} Locate(bs: seq<Block>, p: int, alloc: bool, q: int)
    requires AllGood(bs) && q in At(bs, p, alloc)
    ensures var i := Index(bs, p, q);
      i < |bs| && bs[i] == Block(At(bs, p, alloc)[q], alloc) && p + Sum(bs[..i]) == q
  {
    var rest, p' := bs[1..], p + bs[0].size;
    if q in At(rest, p', alloc) {
      AtBounds(rest, p', alloc, q);
      Locate(rest, p', alloc, q);
      var i := Index(rest, p', q);
      assert bs[..i + 1] == [bs[0]] + rest[..i];
    }
  }

  lemma {:induction false} Located(bs: seq<Block>, p: int, i: int)
    requires AllGood(bs) && 0 <= i < |bs|
    ensures var q := p + Sum(bs[..i]);
      q in At(bs, p, bs[i].alloc) && At(bs, p, bs[i].alloc)[q] == bs[i].size && Index(bs, p, q) == i
  {
    if i == 0 {
      if p in At(bs[1..], p + bs[0].size, bs[0].alloc) {
        AtBounds(bs[1..], p + bs[0].size, bs[0].alloc, p);
      }
    } else {
      var rest := bs[1..];
      assert bs[..i] == [bs[0]] + rest[..i - 1];
      SumBounds(rest[..i - 1]);
      Located(rest, p + bs[0].size, i - 1);
    }
  }
}
