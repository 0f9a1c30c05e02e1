/**
 The two allocators run side by side: on the same steps they hold the same blocks and return
 the same pointers, so the free lists of mm.c are an index and nothing more.
 */
module Lockstep {
  import opened Words
  import opened Blocks
  import opened Effects
  import opened Frames
  import opened Layout
  import Implicit = ImplicitList
  import Segregated = SegregatedLists
  import opened SegLists

  /** extend_heap of some words, place of asize bytes in the free block at bp, mm_free of bp. */
  datatype HeapStep = Grow(words: int) | Take(bp: int, asize: int) | Give(bp: int)

  /** The blocks of both heaps, the lists of mm.c, and what the calls of extend_heap have returned. */
  datatype HeapState = HeapState(blocks: seq<Block>, lists: seq<seq<int>>, returned: seq<int>)

  predicate Legal(bs: seq<Block>, s: HeapStep) {
    match s
    case Grow(words) => 0 <= words < WORD_LIMIT && MIN_BLOCK <= GrowBytes(words)
    case Take(bp, asize) => bp in FreeBlocks(bs) && asize <= FreeBlocks(bs)[bp] && Good(Block(asize, true))
    case Give(bp) => bp in LiveBlocks(bs)
  }

  predicate Refused(bs: seq<Block>, words: int) {
    HeapSize(bs) + GrowBytes(words) > MAX_HEAP
  }

  function After(bs: seq<Block>, s: HeapStep): seq<Block>
    requires Legal(bs, s)
  {
    match s
    case Grow(words) => if Refused(bs, words) then bs else Extend(bs, GrowBytes(words))
    case Take(bp, asize) => if Index(bs, FIRST_BP, bp) < |bs| then Place(bs, Index(bs, FIRST_BP, bp), asize) else bs
    case Give(bp) => Release(bs, bp)
  }

  function ListsAfter(lists: seq<seq<int>>, bs: seq<Block>, s: HeapStep): seq<seq<int>>
    requires Legal(bs, s)
  {
    match s
    case Grow(words) => if Refused(bs, words) then lists else ExtendLists(lists, bs, GrowBytes(words))
    case Take(bp, asize) => if Index(bs, FIRST_BP, bp) < |bs| then PlaceLists(lists, bs, Index(bs, FIRST_BP, bp), asize) else lists
    case Give(bp) => ReleaseLists(lists, bs, bp)
  }

  /** What extend_heap returns: 0 for NULL. */
  function Returned(bs: seq<Block>, s: HeapStep): seq<int> {
    if !s.Grow? then []
    else if Refused(bs, s.words) then [0]
    else var grown := Extend(bs, GrowBytes(s.words)); [Off(grown, |grown| - 1)]
  }

  /** After mm_init. */
  function Initial(): HeapState {
    HeapState([Block(CHUNKSIZE, false)], ExtendLists(NoLists(), [], CHUNKSIZE), [])
  }

  function Next(st: HeapState, s: HeapStep): HeapState
    requires Legal(st.blocks, s)
  {
    HeapState(After(st.blocks, s), ListsAfter(st.lists, st.blocks, s), st.returned + Returned(st.blocks, s))
  }

  /** Each step is legal where it is taken. */
  predicate AllLegal(st: HeapState, steps: seq<HeapStep>)
    decreases steps
  {
    steps == [] || (Legal(st.blocks, steps[0]) && AllLegal(Next(st, steps[0]), steps[1..]))
  }

  function AfterAll(st: HeapState, steps: seq<HeapStep>): HeapState
    requires AllLegal(st, steps)
    decreases steps
  {
    if steps == [] then st else AfterAll(Next(st, steps[0]), steps[1..])
  }

  /** NULL is the only refusal: a pointer returned is not 0. */
  lemma ReturnedNull(bs: seq<Block>, s: HeapStep)
    requires AllGood(bs) && Legal(bs, s)
    ensures 0 in Returned(bs, s) <==> s.Grow? && Refused(bs, s.words)
  {
    hide Extend, GrowBytes;
    if s.Grow? && !Refused(bs, s.words) {
      EvenGrowth(s.words);
      ExtendGood(bs, GrowBytes(s.words));
      OffPositive(Extend(bs, GrowBytes(s.words)));
    }
  }

  lemma ExtendGood(bs: seq<Block>, size: int)
    requires AllGood(bs) && Good(Block(size, false))
    ensures AllGood(Extend(bs, size)) && Extend(bs, size) != []
  {
    ExtendIsGrownTail(bs, size);
  }

  /** One step of mm-firstfit.c. */
  method ImplicitStep(a: Implicit.Allocator, s: HeapStep) returns (out: seq<int>)
    requires a.Valid() && Legal(a.blocks, s)
    modifies a, a.h, a.h.mem
    ensures a.Valid() && a.blocks == After(old(a.blocks), s) && out == Returned(old(a.blocks), s)
    ensures a.h.enomem == (old(a.h.enomem) || 0 in out)
  {
    hide GrowBytes, Extend, Release, Place, Represents;
    ReturnedNull(a.blocks, s);
    out := [];
    match s {
      case Grow(words) =>
        var r := a.ExtendHeap(words);
        out := [r];
      case Take(bp, asize) =>
        Locate(a.blocks, FIRST_BP, false, bp);
        a.PlaceAt(bp, asize, Index(a.blocks, FIRST_BP, bp));
      case Give(bp) => a.Free(bp);
    }
  }

  /** The same step of mm.c. */
  method SegregatedStep(a: Segregated.Allocator, s: HeapStep) returns (out: seq<int>)
    requires a.Valid() && Legal(a.blocks, s)
    modifies a, a.h, a.h.mem, a.heads
    ensures a.Valid() && a.blocks == After(old(a.blocks), s) && out == Returned(old(a.blocks), s)
    ensures a.lists == ListsAfter(old(a.lists), old(a.blocks), s)
    ensures a.h.enomem == (old(a.h.enomem) || 0 in out)
  {
    hide GrowBytes, Extend, Release, Place, ExtendLists, PlaceLists, ReleaseLists, Indexed, Represents;
    ReturnedNull(a.blocks, s);
    out := [];
    match s {
      case Grow(words) =>
        var r := a.ExtendHeap(words);
        out := [r];
      case Take(bp, asize) =>
        Locate(a.blocks, FIRST_BP, false, bp);
        a.Place(bp, asize, Index(a.blocks, FIRST_BP, bp));
      case Give(bp) => a.Free(bp);
    }
  }

  /**
   From mm_init on, over any legal steps, the two heaps hold the same blocks, extend_heap
   returns the same pointers and refuses at the same steps, and the lists are those computed.
   */
  method RunBoth(a: Implicit.Allocator, b: Segregated.Allocator, steps: seq<HeapStep>) returns (outA: seq<int>, outB: seq<int>)
    requires a.h != b.h && a.h.mem != b.h.mem
    requires a.h.Valid() && b.h.Valid() && a.h.brk == 0 == b.h.brk && b.heads.Length == LISTS
    requires AllLegal(Initial(), steps)
    modifies a, a.h, a.h.mem, b, b.h, b.h.mem, b.heads
    ensures a.Valid() && b.Valid()
    ensures var end := AfterAll(Initial(), steps);
      a.blocks == b.blocks == end.blocks && b.lists == end.lists && outA == outB == end.returned
    ensures a.h.enomem == (old(a.h.enomem) || 0 in outA) && b.h.enomem == (old(b.h.enomem) || 0 in outB)
  {
    hide After, ListsAfter, Returned, Legal, ExtendLists, Implicit.Allocator.Valid, Segregated.Allocator.Valid;
    var _ := a.Init();
    var _ := b.Init();
    ghost var st := Initial();
    outA, outB := [], [];
    var i := 0;
    assert steps[0..] == steps;
    while i < |steps|
      invariant 0 <= i <= |steps| && a.Valid() && b.Valid() && a.blocks == b.blocks == st.blocks
      invariant b.lists == st.lists && outA == outB == st.returned
      invariant a.h.enomem == (old(a.h.enomem) || 0 in outA) && b.h.enomem == (old(b.h.enomem) || 0 in outB)
      invariant AllLegal(st, steps[i..]) && AfterAll(st, steps[i..]) == AfterAll(Initial(), steps)
    {
      assert steps[i..][1..] == steps[i + 1..];
      var out := ImplicitStep(a, steps[i]);
      outA := outA + out;
      out := SegregatedStep(b, steps[i]);
      outB := outB + out;
      st := Next(st, steps[i]);
      i := i + 1;
    }
  }
  // ------------------------------------------------------------------ a list out of order

  /** Two splits leave a free block of 16 bytes on list 4, and then 24 bytes are freed before it. */
  const DISORDER := [Take(16, 24), Take(40, 4056), Give(16)]

  lemma ClassesMet()
    ensures Class(16) == Class(24) == 4 && Class(4072) == 11 && Class(4096) == 12
  {
    assert Shift(16, 0) == Shift(4, 2) == (4, 1);
    assert Shift(24, 0) == Shift(6, 2) == (4, 1);
    assert Shift(4072, 0) == Shift(1018, 2) == Shift(254, 4) == Shift(63, 6) == Shift(15, 8) == (11, 1);
    assert Shift(4096, 0) == Shift(1024, 2) == Shift(256, 4) == Shift(64, 6) == Shift(16, 8) == (12, 1);
  }

  lemma FirstTake(st: HeapState)
    requires st.blocks == [Block(4096, false)] && |st.lists| == LISTS && st.lists[4] == []
    ensures Legal(st.blocks, Take(16, 24))
    ensures var next := Next(st, Take(16, 24));
      next.blocks == [Block(24, true), Block(4072, false)] && |next.lists| == LISTS && next.lists[4] == []
  {
    hide Class;
    ClassesMet();
    AtOne(st.blocks[0], FIRST_BP, false);
  }

  lemma SecondTake(st: HeapState)
    requires st.blocks == [Block(24, true), Block(4072, false)] && |st.lists| == LISTS && st.lists[4] == []
    ensures Legal(st.blocks, Take(40, 4056))
    ensures var next := Next(st, Take(40, 4056));
      next.blocks == [Block(24, true), Block(4056, true), Block(16, false)] && |next.lists| == LISTS && next.lists[4] == [4096]
  {
    hide Class;
    ClassesMet();
    AtTwo(st.blocks[0], st.blocks[1], FIRST_BP, false);
    AtOne(st.blocks[1], 40, false);
    AtOne(st.blocks[0], FIRST_BP, false);
    Located(st.blocks, FIRST_BP, 1);
    assert st.blocks[..1] == [st.blocks[0]];
  }

  lemma LastGive(st: HeapState)
    requires st.blocks == [Block(24, true), Block(4056, true), Block(16, false)] && |st.lists| == LISTS && st.lists[4] == [4096]
    ensures Legal(st.blocks, Give(16))
    ensures var next := Next(st, Give(16));
      next.blocks == [Block(24, false), Block(4056, true), Block(16, false)] && |next.lists| == LISTS && next.lists[4] == [16, 4096]
  {
    hide Class;
    ClassesMet();
    Located(st.blocks, FIRST_BP, 0);
    var loose := st.blocks[0 := Block(24, false)];
    CoalesceAlone(loose, 0);
  }

  /** The order promised for the lists is lost on a legal run: list 4 has 24 bytes before 16. */
  lemma OrderLost()
    ensures AllLegal(Initial(), DISORDER)
    ensures var end := AfterAll(Initial(), DISORDER); var free := FreeBlocks(end.blocks);
      && |end.lists| == LISTS && end.lists[4] == [16, 4096] && 16 in free && 4096 in free && free[16] == 24 && free[4096] == 16
      && !SizesAscend(end.lists[4], free)
  {
    hide Next, Legal, Class, At, Sum;
    InitialLists();
    var s0 := Initial();
    FirstTake(s0);
    var s1 := Next(s0, DISORDER[0]);
    SecondTake(s1);
    var s2 := Next(s1, DISORDER[1]);
    LastGive(s2);
    var s3 := Next(s2, DISORDER[2]);
    assert DISORDER[1..] == [DISORDER[1], DISORDER[2]] && DISORDER[1..][1..] == [DISORDER[2]] && DISORDER[1..][1..][1..] == [];
    FreedSizes(s3.blocks);
    assert !NoLarger(FreeBlocks(s3.blocks), s3.lists[4][0], s3.lists[4][1]);
  }

  lemma InitialLists()
    ensures Initial().blocks == [Block(4096, false)] && |Initial().lists| == LISTS && Initial().lists[4] == []
  {
    ClassesMet();
  }

  lemma FreedSizes(bs: seq<Block>)
    requires bs == [Block(24, false), Block(4056, true), Block(16, false)]
    ensures var free := FreeBlocks(bs); 16 in free && 4096 in free && free[16] == 24 && free[4096] == 16
  {
    Located(bs, FIRST_BP, 0);
    Located(bs, FIRST_BP, 2);
    assert bs[..2] == [bs[0], bs[1]];
    AtTwo(bs[0], bs[1], FIRST_BP, false);
  }
}
