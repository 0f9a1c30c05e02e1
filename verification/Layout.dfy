/**
 How a block sequence lies in memory.  Every block carries its size and allocated bit in a
 header word just before its payload and in a footer word at its end; an allocated prologue
 and a zero-size epilogue header enclose the user blocks.
 */
module Layout {
  import opened Words
  import opened Blocks

  /** The prologue's payload address, which is where its footer is too. */
  const PROLOGUE := 8

  /**
   The two tags of block b with payload at p.  The header is exact.  The footer agrees on
   size and allocated bit, and as a whole word too when `exact` holds.
   */
  ghost predicate Tags(m: seq<byte>, p: int, b: Block, exact: bool) {
    && 4 <= p && 8 <= b.size && p + b.size - 4 <= |m|
    && Word(m, p - 4) == Pack(b.size, b.alloc)
    && FooterOk(Word(m, p + b.size - 8), b, exact)
  }

  ghost predicate FooterOk(w: int, b: Block, exact: bool) {
    SizeOf(w) == b.size && AllocOf(w) == b.alloc && (exact ==> w == Pack(b.size, b.alloc))
  }

  /** The blocks bs lie one after the other, the first payload at p. */
  ghost predicate Seg(m: seq<byte>, p: int, bs: seq<Block>, exact: bool)
    decreases bs
  {
    bs == [] || (Tags(m, p, bs[0], exact) && Seg(m, p + bs[0].size, bs[1..], exact))
  }

  /** Memory m with break brk holds exactly the user blocks bs. */
  ghost predicate Represents(m: seq<byte>, brk: int, bs: seq<Block>, exact: bool) {
    && |m| == MAX_HEAP && AllGood(bs) && FIRST_BP <= brk == HeapSize(bs) <= MAX_HEAP
    && Word(m, 4) == Pack(OVERHEAD, true) && Word(m, PROLOGUE) == Pack(OVERHEAD, true)
    && Seg(m, FIRST_BP, bs, exact)
    && Word(m, brk - 4) == Pack(0, true)
  }

  // ------------------------------------------------------------------ macros

  function Ftrp(m: seq<byte>, bp: int): int
    requires 4 <= bp <= |m|
  {
    bp + SizeOf(Word(m, bp - 4)) - DSIZE
  }

  function NextBlkp(m: seq<byte>, bp: int): int
    requires 4 <= bp <= |m|
  {
    bp + SizeOf(Word(m, bp - 4))
  }

  function PrevBlkp(m: seq<byte>, bp: int): int
    requires 8 <= bp <= |m| + 4
  {
    bp - SizeOf(Word(m, bp - 8))
  }

  // ------------------------------------------------------------------ segments

  lemma {:induction false} SegConcat(m: seq<byte>, p: int, a: seq<Block>, b: seq<Block>, exact: bool)
    ensures Seg(m, p, a + b, exact) <==> Seg(m, p, a, exact) && Seg(m, p + Sum(a), b, exact)
    decreases a
  {
    if a == [] {
      assert a + b == b;
    } else {
      assert (a + b)[1..] == a[1..] + b;
      SegConcat(m, p + a[0].size, a[1..], b, exact);
    }
  }

  lemma {:induction false} SegFrame(m: seq<byte>, r: seq<byte>, lo: int, hi: int, p: int, bs: seq<Block>, exact: bool)
    requires Seg(m, p, bs, exact) && AllGood(bs) && SameOutside(m, r, lo, hi)
    requires p + Sum(bs) - 4 <= lo || hi <= p - 4
    ensures Seg(r, p, bs, exact)
    decreases bs
  {
    if bs != [] {
      SumBounds(bs[1..]);
      WordFrame(m, r, lo, hi, p - 4);
      WordFrame(m, r, lo, hi, p + bs[0].size - 8);
      SegFrame(m, r, lo, hi, p + bs[0].size, bs[1..], exact);
    }
  }

  lemma SegOne(m: seq<byte>, p: int, b: Block, exact: bool)
    ensures Seg(m, p, [b], exact) <==> Tags(m, p, b, exact)
  {
    assert [b][1..] == [];
  }

  /**
   Rewriting the tags inside one stretch of blocks changes just that stretch of the
   represented sequence.
   */
  lemma Splice(m: seq<byte>, r: seq<byte>, brk: int, bs: seq<Block>, lo: int, hi: int, mid: seq<Block>, exact: bool)
    requires Represents(m, brk, bs, exact) && 0 <= lo <= hi <= |bs|
    requires AllGood(mid) && Sum(mid) == Sum(bs[lo..hi])
    requires SameOutside(m, r, Off(bs, lo) - 4, Off(bs, hi) - 4)
    requires Seg(r, Off(bs, lo), mid, exact)
    ensures Represents(r, brk, bs[..lo] + mid + bs[hi..], exact)
  {
    hide Word, Seg, Represents, Sum;
    var pre, was, post := bs[..lo], bs[lo..hi], bs[hi..];
    ThreeParts(bs, lo, hi);
    SumConcat(pre, was);
    SpliceParts(m, r, brk, pre, was, post, mid, exact);
  }

  lemma SpliceParts(m: seq<byte>, r: seq<byte>, brk: int, pre: seq<Block>, was: seq<Block>, post: seq<Block>, mid: seq<Block>, exact: bool)
    requires Represents(m, brk, pre + was + post, exact) && AllGood(mid) && Sum(mid) == Sum(was)
    requires var p := FIRST_BP + Sum(pre);
      SameOutside(m, r, p - 4, p + Sum(was) - 4) && Seg(r, p, mid, exact)
    ensures Represents(r, brk, pre + mid + post, exact)
  {
    hide Word;
    var p := FIRST_BP + Sum(pre);
    GoodConcat(pre + was, post);
    GoodConcat(pre, was);
    GoodConcat(pre + mid, post);
    GoodConcat(pre, mid);
    SplitSums(pre, was, post);
    SplitSums(pre, mid, post);
    SpliceSeg(m, r, pre, was, post, mid, exact);
    WordFrame(m, r, p - 4, p + Sum(was) - 4, 4);
    WordFrame(m, r, p - 4, p + Sum(was) - 4, PROLOGUE);
    WordFrame(m, r, p - 4, p + Sum(was) - 4, brk - 4);
  }

  lemma SplitSums(pre: seq<Block>, mid: seq<Block>, post: seq<Block>)
    requires AllGood(pre) && AllGood(mid) && AllGood(post)
    ensures Sum(pre + mid + post) == Sum(pre) + Sum(mid) + Sum(post)
    ensures 0 <= Sum(pre) && 0 <= Sum(mid) && 0 <= Sum(post)
  {
    SumConcat(pre + mid, post);
    SumConcat(pre, mid);
    SumBounds(pre);
    SumBounds(mid);
    SumBounds(post);
  }

  lemma SpliceSeg(m: seq<byte>, r: seq<byte>, pre: seq<Block>, was: seq<Block>, post: seq<Block>, mid: seq<Block>, exact: bool)
    requires Seg(m, FIRST_BP, pre + was + post, exact) && AllGood(pre + was + post) && Sum(mid) == Sum(was)
    requires var p := FIRST_BP + Sum(pre);
      SameOutside(m, r, p - 4, p + Sum(was) - 4) && Seg(r, p, mid, exact)
    ensures Seg(r, FIRST_BP, pre + mid + post, exact)
  {
    hide Word;
    var p := FIRST_BP + Sum(pre);
    var p' := p + Sum(was);
    SumConcat(pre, was);
    SumConcat(pre, mid);
    GoodConcat(pre + was, post);
    GoodConcat(pre, was);
    SegConcat(m, FIRST_BP, pre + was, post, exact);
    SegConcat(m, FIRST_BP, pre, was, exact);
    SegFrame(m, r, p - 4, p' - 4, FIRST_BP, pre, exact);
    SegFrame(m, r, p - 4, p' - 4, p', post, exact);
    SegConcat(r, FIRST_BP, pre, mid, exact);
    SegConcat(r, FIRST_BP, pre + mid, post, exact);
  }

  lemma SegAt(m: seq<byte>, p: int, bs: seq<Block>, i: int, exact: bool)
    requires Seg(m, p, bs, exact) && 0 <= i < |bs|
    ensures Tags(m, p + Sum(bs[..i]), bs[i], exact)
  {
    hide Word, Tags;
    assert bs == bs[..i] + bs[i..];
    SegConcat(m, p, bs[..i], bs[i..], exact);
    assert bs[i..][0] == bs[i];
  }

  lemma TagsAt(m: seq<byte>, brk: int, bs: seq<Block>, i: int, exact: bool)
    requires Represents(m, brk, bs, exact) && 0 <= i < |bs|
    ensures Tags(m, Off(bs, i), bs[i], exact) && Good(bs[i])
    ensures FIRST_BP <= Off(bs, i) && Off(bs, i) % 8 == 0
    ensures Off(bs, i + 1) == Off(bs, i) + bs[i].size <= brk
    ensures Off(bs, |bs|) == brk
  {
    hide Word, Seg, Sum, Tags;
    OffBounds(bs, i);
    SegAt(m, FIRST_BP, bs, i, exact);
  }

  /** Boundary i lies between block i - 1, or the prologue, and block i, or the epilogue. */
  lemma Boundary(m: seq<byte>, brk: int, bs: seq<Block>, i: int, exact: bool)
    requires Represents(m, brk, bs, exact) && 0 <= i <= |bs|
    ensures FIRST_BP <= Off(bs, i) <= brk && Off(bs, i) % 8 == 0
    ensures Word(m, Off(bs, i) - 4) == if i == |bs| then Pack(0, true) else Pack(bs[i].size, bs[i].alloc)
    ensures FooterOk(Word(m, Off(bs, i) - 8), if i == 0 then Block(OVERHEAD, true) else bs[i - 1], exact)
    ensures Off(bs, i) - (if i == 0 then OVERHEAD else bs[i - 1].size) == BlockAddress(bs, i - 1)
  {
    if i < |bs| {
      TagsAt(m, brk, bs, i, exact);
    }
    if 0 < i {
      TagsAt(m, brk, bs, i - 1, exact);
    }
  }

  lemma Prologue(m: seq<byte>, brk: int, bs: seq<Block>, exact: bool)
    requires Represents(m, brk, bs, exact)
    ensures |m| == MAX_HEAP && FIRST_BP <= brk <= MAX_HEAP && Word(m, 4) == Word(m, PROLOGUE) == Pack(OVERHEAD, true)
  {
  }

  /** The sixteen bytes mm_init writes represent a heap without blocks. */
  lemma EmptyHeap(m: seq<byte>, exact: bool)
    requires |m| == MAX_HEAP
    requires Word(m, 4) == Word(m, PROLOGUE) == Pack(OVERHEAD, true) && Word(m, 12) == Pack(0, true)
    ensures Represents(m, FIRST_BP, [], exact)
  {
  }

  /** Payload address of block i, where block -1 is the prologue and block |bs| the epilogue. */
  function BlockAddress(bs: seq<Block>, i: int): int
    requires -1 <= i <= |bs|
  {
    if i == -1 then PROLOGUE else Off(bs, i)
  }

  /** NEXT_BLKP and PREV_BLKP undo each other along the whole heap, prologue and epilogue included. */
  lemma WalksInverse(m: seq<byte>, brk: int, bs: seq<Block>, i: int, exact: bool)
    requires Represents(m, brk, bs, exact) && -1 <= i < |bs|
    ensures var p, q := BlockAddress(bs, i), BlockAddress(bs, i + 1);
      && 4 <= p < q <= |m| && 8 <= q && NextBlkp(m, p) == q && PrevBlkp(m, q) == p
      && PrevBlkp(m, NextBlkp(m, p)) == p && NextBlkp(m, PrevBlkp(m, q)) == q
  {
    hide Word, SizeOf, AllocOf, Pack, Represents, Sum;
    Boundary(m, brk, bs, i + 1, exact);
    Prologue(m, brk, bs, exact);
    PackFields(OVERHEAD, true);
    OffFirst(bs);
    if i >= 0 {
      TagsAt(m, brk, bs, i, exact);
      PackFields(bs[i].size, bs[i].alloc);
    }
  }

  lemma OffFirst(bs: seq<Block>)
    ensures Off(bs, 0) == FIRST_BP
  {
  }

  // ------------------------------------------------------------------ rewritten tags

  /** The tags of one block written around a stretch of blocks: the stretch becomes that block. */
  lemma Retag(m: seq<byte>, r: seq<byte>, brk: int, bs: seq<Block>, lo: int, hi: int, b: Block, exact: bool)
    requires Represents(m, brk, bs, exact) && 0 <= lo < hi <= |bs|
    requires b.size == Off(bs, hi) - Off(bs, lo)
    requires SameOutside(m, r, Off(bs, lo) - 4, Off(bs, hi) - 4)
    requires Tags(r, Off(bs, lo), b, exact)
    ensures Represents(r, brk, bs[..lo] + [b] + bs[hi..], exact)
  {
    assert bs[..hi] == bs[..lo] + bs[lo..hi];
    SumConcat(bs[..lo], bs[lo..hi]);
    SumBounds(bs[lo..hi]);
    assert Sum([b]) == b.size + Sum([b][1..]);
    SegOne(r, Off(bs, lo), b, exact);
    Splice(m, r, brk, bs, lo, hi, [b], exact);
  }

  /** The tags of two blocks written inside block i: the block is split. */
  lemma RetagSplit(m: seq<byte>, r: seq<byte>, brk: int, bs: seq<Block>, i: int, b: Block, c: Block, exact: bool)
    requires Represents(m, brk, bs, exact) && 0 <= i < |bs|
    requires Good(b) && Good(c) && b.size + c.size == bs[i].size
    requires SameOutside(m, r, Off(bs, i) - 4, Off(bs, i) + bs[i].size - 4)
    requires Tags(r, Off(bs, i), b, exact) && Tags(r, Off(bs, i) + b.size, c, exact)
    ensures Represents(r, brk, bs[..i] + [b, c] + bs[i + 1..], exact)
  {
    OffBounds(bs, i);
    SumStep(bs[i..i + 1], 0);
    assert bs[i..i + 1][..1] == bs[i..i + 1];
    SumStep([b, c], 1);
    SumStep([b, c], 0);
    assert [b, c][..2] == [b, c];
    assert [b, c][1..] == [c];
    SegOne(r, Off(bs, i) + b.size, c, exact);
    Splice(m, r, brk, bs, i, i + 1, [b, c], exact);
  }

  /** The tags of a new last block and a new epilogue written at the old break. */
  lemma Appended(m: seq<byte>, r: seq<byte>, brk: int, bs: seq<Block>, b: Block, exact: bool)
    requires Represents(m, brk, bs, exact) && Good(b) && brk + b.size <= MAX_HEAP
    requires SameOutside(m, r, brk - 4, brk + b.size)
    requires Tags(r, brk, b, exact) && Word(r, brk + b.size - 4) == Pack(0, true)
    ensures Represents(r, brk + b.size, bs + [b], exact)
  {
    hide Word;
    SumBounds(bs);
    SumConcat(bs, [b]);
    assert Sum([b]) == b.size + Sum([b][1..]);
    SegOne(r, brk, b, exact);
    SegFrame(m, r, brk - 4, brk + b.size, FIRST_BP, bs, exact);
    SegConcat(r, FIRST_BP, bs, [b], exact);
    WordFrame(m, r, brk - 4, brk + b.size, 4);
    WordFrame(m, r, brk - 4, brk + b.size, PROLOGUE);
  }

  lemma TwoStores(m: seq<byte>, r: seq<byte>, a: int, v: int, b: int, w: int, lo: int, hi: int)
    requires 0 <= lo <= a && 0 <= lo <= b && a + 4 <= hi <= |m| && b + 4 <= hi && 0 <= v < WORD_LIMIT && 0 <= w < WORD_LIMIT
    requires a + 4 <= b || b + 4 <= a
    requires r == PutWord(PutWord(m, a, v), b, w)
    ensures Word(r, a) == v && Word(r, b) == w && SameOutside(m, r, lo, hi)
  {
    hide Word, PutWord;
  }

  lemma PackIsFooter(b: Block)
    requires Good(b)
    ensures FooterOk(Pack(b.size, b.alloc), b, true)
    ensures b.size <= MAX_HEAP + 4 ==> 0 <= Pack(b.size, b.alloc) < WORD_LIMIT
  {
    PackFields(b.size, b.alloc);
  }

  /** Header and footer of a block stored in either order. */
  lemma TagsStored(m: seq<byte>, r: seq<byte>, p: int, b: Block)
    requires 4 <= p && Good(b) && p + b.size - 4 <= |m| <= MAX_HEAP
    requires var v := Pack(b.size, b.alloc);
      || r == PutWord(PutWord(m, p - 4, v), p + b.size - 8, v)
      || r == PutWord(PutWord(m, p + b.size - 8, v), p - 4, v)
    ensures Tags(r, p, b, true) && SameOutside(m, r, p - 4, p + b.size - 4)
  {
    hide Word, PutWord, Pack, FooterOk;
    PackIsFooter(b);
    var v := Pack(b.size, b.alloc);
    if r == PutWord(PutWord(m, p - 4, v), p + b.size - 8, v) {
      TwoStores(m, r, p - 4, v, p + b.size - 8, v, p - 4, p + b.size - 4);
    } else {
      TwoStores(m, r, p + b.size - 8, v, p - 4, v, p - 4, p + b.size - 4);
    }
  }

  lemma TagsFrame(m: seq<byte>, r: seq<byte>, lo: int, hi: int, p: int, b: Block, exact: bool)
    requires Tags(m, p, b, exact) && SameOutside(m, r, lo, hi)
    requires p + b.size - 4 <= lo || hi <= p - 4
    ensures Tags(r, p, b, exact)
  {
    WordFrame(m, r, lo, hi, p - 4);
    WordFrame(m, r, lo, hi, p + b.size - 8);
  }

  lemma SumSlice(bs: seq<Block>, lo: int, hi: int)
    requires 0 <= lo <= hi <= |bs|
    ensures Off(bs, hi) - Off(bs, lo) == Sum(bs[lo..hi])
  {
    assert bs[..hi][..lo] == bs[..lo] && bs[..hi][lo..] == bs[lo..hi];
    SumSplit(bs[..hi], lo);
  }

  /** What the address macros compute at block i, looking down. */
  lemma PrevNeighbour(m: seq<byte>, brk: int, bs: seq<Block>, i: int, exact: bool)
    requires Represents(m, brk, bs, exact) && 0 <= i < |bs|
    ensures i > 0 ==> Good(bs[i - 1]) && Off(bs, i - 1) + bs[i - 1].size == Off(bs, i)
    ensures var bp := Off(bs, i);
      && FIRST_BP <= bp <= |m|
      && PROLOGUE <= PrevBlkp(m, bp) == BlockAddress(bs, i - 1) < bp
      && SizeOf(Word(m, PrevBlkp(m, bp) - 4)) == (if i == 0 then OVERHEAD else bs[i - 1].size)
      && AllocOf(Word(m, PrevBlkp(m, bp) - 4)) == AllocOf(Word(m, bp - 8)) == (i == 0 || bs[i - 1].alloc)
      && Ftrp(m, PrevBlkp(m, bp)) == bp - 8
  {
    hide Word, SizeOf, AllocOf, Pack, Represents, Sum;
    Boundary(m, brk, bs, i, exact);
    Prologue(m, brk, bs, exact);
    PackFields(OVERHEAD, true);
    if i > 0 {
      TagsAt(m, brk, bs, i - 1, exact);
      PackFields(bs[i - 1].size, bs[i - 1].alloc);
    }
  }

  /** What the address macros compute at block i, looking up. */
  lemma NextNeighbour(m: seq<byte>, brk: int, bs: seq<Block>, i: int, exact: bool)
    requires Represents(m, brk, bs, exact) && 0 <= i < |bs|
    ensures Tags(m, Off(bs, i), bs[i], exact) && Good(bs[i]) && (i + 1 < |bs| ==> Good(bs[i + 1]))
    ensures var bp := Off(bs, i);
      && FIRST_BP <= bp && bp % 8 == 0 && bp + bs[i].size == Off(bs, i + 1) <= brk
      && Word(m, bp - 4) == Pack(bs[i].size, bs[i].alloc)
      && Ftrp(m, bp) == Off(bs, i + 1) - 8 && NextBlkp(m, bp) == Off(bs, i + 1)
      && Word(m, Off(bs, i + 1) - 4) == (if i + 1 == |bs| then Pack(0, true) else Pack(bs[i + 1].size, bs[i + 1].alloc))
      && (i + 1 < |bs| ==> Off(bs, i + 2) == Off(bs, i + 1) + bs[i + 1].size <= brk
                           && Ftrp(m, Off(bs, i + 1)) == Off(bs, i + 2) - 8
                           && FooterOk(Word(m, Off(bs, i + 2) - 8), bs[i + 1], exact))
  {
    hide Word, SizeOf, AllocOf, Pack, Represents, Sum;
    TagsAt(m, brk, bs, i, exact);
    Boundary(m, brk, bs, i + 1, exact);
    PackFields(bs[i].size, bs[i].alloc);
    if i + 1 < |bs| {
      TagsAt(m, brk, bs, i + 1, exact);
      PackFields(bs[i + 1].size, bs[i + 1].alloc);
    }
  }

  /** Changing payload bytes of one block, never its tags, changes no block. */
  lemma PayloadAt(m: seq<byte>, r: seq<byte>, brk: int, bs: seq<Block>, i: int, lo: int, hi: int, exact: bool)
    requires Represents(m, brk, bs, exact) && 0 <= i < |bs|
    requires Off(bs, i) <= lo && hi <= Off(bs, i) + bs[i].size - OVERHEAD && SameOutside(m, r, lo, hi)
    ensures Represents(r, brk, bs, exact)
  {
    TagsAt(m, brk, bs, i, exact);
    WordFrame(m, r, lo, hi, Off(bs, i) - 4);
    WordFrame(m, r, lo, hi, Off(bs, i) + bs[i].size - 8);
    Retag(m, r, brk, bs, i, i + 1, bs[i], exact);
    assert bs[..i] + [bs[i]] + bs[i + 1..] == bs;
  }

  /** And no byte of another live block. */
  lemma PayloadWritten(m: seq<byte>, r: seq<byte>, brk: int, bs: seq<Block>, q: int, lo: int, hi: int, exact: bool)
    requires Represents(m, brk, bs, exact) && q in LiveBlocks(bs)
    requires q <= lo && hi <= q + LiveBlocks(bs)[q] - OVERHEAD && SameOutside(m, r, lo, hi)
    ensures Represents(r, brk, bs, exact)
    ensures KeepsBytes(m, r, LiveBlocks(bs) - {q})
  {
    Locate(bs, FIRST_BP, true, q);
    var i := Index(bs, FIRST_BP, q);
    PayloadAt(m, r, brk, bs, i, lo, hi, exact);
    OffBounds(bs, i);
    IndexInjective(bs, q);
    FrameLive(m, r, bs, i, i + 1, LiveBlocks(bs) - {q});
  }

  lemma IndexInjective(bs: seq<Block>, q: int)
    requires AllGood(bs)
    ensures forall p | p in LiveBlocks(bs) && p != q && q in LiveBlocks(bs) :: Index(bs, FIRST_BP, p) != Index(bs, FIRST_BP, q)
  {
    forall p | p in LiveBlocks(bs) && p != q && q in LiveBlocks(bs) ensures Index(bs, FIRST_BP, p) != Index(bs, FIRST_BP, q) {
      Locate(bs, FIRST_BP, true, p);
      Locate(bs, FIRST_BP, true, q);
    }
  }

  /** The header met at each step of a walk from the prologue to the epilogue. */
  lemma HeaderAt(m: seq<byte>, brk: int, bs: seq<Block>, k: int, exact: bool)
    requires Represents(m, brk, bs, exact) && -1 <= k <= |bs|
    ensures var p := BlockAddress(bs, k);
      && PROLOGUE <= p <= brk <= |m| && p % 8 == 0
      && Word(m, p - 4) == (if k == -1 then Pack(OVERHEAD, true) else if k == |bs| then Pack(0, true) else Pack(bs[k].size, bs[k].alloc))
      && SizeOf(Word(m, p - 4)) == (if k == -1 then OVERHEAD else if k == |bs| then 0 else bs[k].size)
      && AllocOf(Word(m, p - 4)) == (k == -1 || k == |bs| || bs[k].alloc)
      && (k < |bs| ==> NextBlkp(m, p) == BlockAddress(bs, k + 1) && p < BlockAddress(bs, k + 1) <= brk)
      && (0 <= k < |bs| ==> Good(bs[k]))
      && (k < |bs| ==> Ftrp(m, p) + 8 == BlockAddress(bs, k + 1)
                       && FooterOk(Word(m, Ftrp(m, p)), if k == -1 then Block(OVERHEAD, true) else bs[k], exact))
  {
    hide Word, SizeOf, AllocOf, Pack, Represents;
    Prologue(m, brk, bs, exact);
    PackFields(OVERHEAD, true);
    PackFields(0, true);
    if k >= 0 {
      Boundary(m, brk, bs, k, exact);
    }
    if 0 <= k < |bs| {
      NextNeighbour(m, brk, bs, k, exact);
      PackFields(bs[k].size, bs[k].alloc);
    }
  }

  /** No header carries the realloc tag. */
  lemma HeaderUntagged(m: seq<byte>, brk: int, bs: seq<Block>, k: int, exact: bool)
    requires Represents(m, brk, bs, exact) && -1 <= k <= |bs|
    ensures var p := BlockAddress(bs, k); 4 <= p <= |m| && TagOf(Word(m, p - 4)) == 0
  {
    hide Represents, Word, TagOf, Pack;
    HeaderAt(m, brk, bs, k, exact);
    PackFields(if k == -1 then OVERHEAD else if k == |bs| then 0 else bs[k].size, k == -1 || k == |bs| || bs[k].alloc);
  }

  // ------------------------------------------------------------------ frames

  /** Every byte, header to footer, of the given blocks is the same in m and r. */
  ghost predicate KeepsBytes(m: seq<byte>, r: seq<byte>, live: map<int, int>) {
    |m| == |r| && forall q, a | q in live && 0 <= a < |m| && q - 4 <= a < q + live[q] - 4 :: r[a] == m[a]
  }

  /** Changes inside a stretch of blocks leave every live block outside the stretch alone. */
  lemma FrameLive(m: seq<byte>, r: seq<byte>, bs: seq<Block>, lo: int, hi: int, live: map<int, int>)
    requires AllGood(bs) && 0 <= lo <= hi <= |bs|
    requires SameOutside(m, r, Off(bs, lo) - 4, Off(bs, hi) - 4)
    requires forall q | q in live :: q in LiveBlocks(bs) && live[q] == LiveBlocks(bs)[q] && !(lo <= Index(bs, FIRST_BP, q) < hi)
    ensures KeepsBytes(m, r, live)
  {
    forall q, a | q in live && 0 <= a < |m| && q - 4 <= a < q + live[q] - 4 ensures r[a] == m[a] {
      Locate(bs, FIRST_BP, true, q);
      var i := Index(bs, FIRST_BP, q);
      OffBounds(bs, i);
      if i < lo {
        OffMonotone(bs, i + 1, lo);
      } else {
        OffMonotone(bs, hi, i);
      }
    }
  }

  /** The same for changes from some block up to anywhere. */
  lemma FrameBelow(m: seq<byte>, r: seq<byte>, bs: seq<Block>, lo: int, end: int, live: map<int, int>)
    requires AllGood(bs) && 0 <= lo <= |bs|
    requires SameOutside(m, r, Off(bs, lo) - 4, end)
    requires forall q | q in live :: q in LiveBlocks(bs) && live[q] == LiveBlocks(bs)[q] && Index(bs, FIRST_BP, q) < lo
    ensures KeepsBytes(m, r, live)
  {
    forall q, a | q in live && 0 <= a < |m| && q - 4 <= a < q + live[q] - 4 ensures r[a] == m[a] {
      Locate(bs, FIRST_BP, true, q);
      var i := Index(bs, FIRST_BP, q);
      OffBounds(bs, i);
      OffMonotone(bs, i + 1, lo);
    }
  }

  lemma OffMonotone(bs: seq<Block>, i: int, j: int)
    requires AllGood(bs) && 0 <= i <= j <= |bs|
    ensures Off(bs, i) <= Off(bs, j)
  {
    assert bs[..j][..i] == bs[..i];
    SumSplit(bs[..j], i);
    SumBounds(bs[..j][i..]);
  }

  lemma KeepsBytesTrans(m: seq<byte>, r: seq<byte>, s: seq<byte>, live: map<int, int>, more: map<int, int>)
    requires KeepsBytes(m, r, live) && KeepsBytes(r, s, more)
    requires forall q | q in live :: q in more && more[q] == live[q]
    ensures KeepsBytes(m, s, live)
  {
  }

  lemma KeepsFewer(m: seq<byte>, r: seq<byte>, live: map<int, int>, some: map<int, int>)
    requires KeepsBytes(m, r, live) && forall q | q in some :: q in live && some[q] == live[q]
    ensures KeepsBytes(m, r, some)
  {
  }

  /** The tag fields read around block i. */
  lemma NeighbourFields(bs: seq<Block>, i: int)
    requires 0 <= i < |bs| && bs[i].size % 8 == 0 && (i + 1 < |bs| ==> bs[i + 1].size % 8 == 0)
    ensures SizeOf(Pack(bs[i].size, bs[i].alloc)) == bs[i].size
    ensures !AllocOf(if i + 1 == |bs| then Pack(0, true) else Pack(bs[i + 1].size, bs[i + 1].alloc)) <==> MergeHi(bs, i) == i + 2
    ensures i + 1 < |bs| ==> SizeOf(Pack(bs[i + 1].size, bs[i + 1].alloc)) == bs[i + 1].size
  {
    PackFields(bs[i].size, bs[i].alloc);
    PackFields(0, true);
    if i + 1 < |bs| {
      PackFields(bs[i + 1].size, bs[i + 1].alloc);
    }
  }

  lemma EvenGrowth(words: int)
    ensures 0 <= GrowBytes(words) < WORD_LIMIT && GrowBytes(words) % 8 == 0
  {
    var _ := WordsRounded(words);
  }

  /** The words asked for, rounded up to whole double words, less a multiple q of 2^32 bytes. */
  lemma WordsRounded(words: int) returns (q: int)
    ensures 0 <= GrowBytes(words) < WORD_LIMIT && GrowBytes(words) % 8 == 0
    ensures 4 * words <= GrowBytes(words) + WORD_LIMIT * q <= 4 * words + 4
  {
    var k := if words % 2 == 1 then words / 2 + 1 else words / 2;
    q := 8 * k / WORD_LIMIT;
    assert GrowBytes(words) == 8 * k - WORD_LIMIT * q == 8 * (k - 0x2000_0000 * q);
  }

  /** extend_heap asked for size / 4 words grows the heap by size bytes. */
  lemma EvenWords(size: int)
    requires 0 <= size < WORD_LIMIT && size % 8 == 0
    ensures 0 <= size / 4 < WORD_LIMIT && GrowBytes(size / 4) == size
  {
    var k := size / 8;
    assert size == 8 * k && size / 4 == 2 * k;
    assert 2 * k % 2 == 0;
  }

  lemma InHeap(m: seq<byte>, brk: int, bs: seq<Block>, exact: bool)
    requires Represents(m, brk, bs, exact)
    ensures AllGood(bs) && HeapSize(bs) == brk <= MAX_HEAP == |m|
  {
  }

  /** The footer of block i is the same word as its header. */
  ghost predicate FooterExact(m: seq<byte>, bs: seq<Block>, p: int, i: int)
    requires 0 <= i < |bs|
  {
    var f := p + Sum(bs[..i]) + bs[i].size - 8;
    0 <= f && f + 4 <= |m| && Word(m, f) == Pack(bs[i].size, bs[i].alloc)
  }

  /** Tags that agree as whole words agree on size and allocated bit. */
  lemma {:induction false} SegLoosened(m: seq<byte>, p: int, bs: seq<Block>)
    requires Seg(m, p, bs, true)
    ensures Seg(m, p, bs, false)
    decreases bs
  {
    if bs != [] {
      SegLoosened(m, p + bs[0].size, bs[1..]);
    }
  }

  lemma {:induction false} SegExact(m: seq<byte>, p: int, bs: seq<Block>)
    requires Seg(m, p, bs, false)
    ensures Seg(m, p, bs, true) <==> AllExact(m, bs, p)
    decreases bs
  {
    if bs != [] {
      hide AllExact, FooterExact, FooterOk;
      SegExact(m, p + bs[0].size, bs[1..]);
      AllExactStep(m, p, bs);
    }
  }

  ghost predicate AllExact(m: seq<byte>, bs: seq<Block>, p: int) {
    forall i | 0 <= i < |bs| :: FooterExact(m, bs, p, i)
  }

  lemma AllExactStep(m: seq<byte>, p: int, bs: seq<Block>)
    requires bs != [] && Tags(m, p, bs[0], false)
    ensures AllExact(m, bs, p) <==> Tags(m, p, bs[0], true) && AllExact(m, bs[1..], p + bs[0].size)
  {
    var rest, q := bs[1..], p + bs[0].size;
    assert FooterExact(m, bs, p, 0) <==> Tags(m, p, bs[0], true);
    forall i | 0 <= i < |rest| ensures FooterExact(m, rest, q, i) <==> FooterExact(m, bs, p, i + 1) {
      assert bs[..i + 1] == [bs[0]] + rest[..i];
    }
    hide FooterExact;
    assert forall i | 0 < i < |bs| :: FooterExact(m, bs, p, i) <==> FooterExact(m, rest, q, i - 1);
  }
}
