/**
 Which bytes the allocator operations may touch: never a byte of a live block other than the
 one they are called on.
 */
module Frames {
  import opened Words
  import opened Blocks
  import opened Effects
  import opened Layout

  lemma OffPositive(bs: seq<Block>)
    requires AllGood(bs)
    ensures forall i | 0 <= i <= |bs| :: Off(bs, i) >= FIRST_BP
  {
    forall i | 0 <= i <= |bs| ensures Off(bs, i) >= FIRST_BP {
      SumBounds(bs[..i]);
    }
  }

  lemma OffOfLast(bs: seq<Block>, b: Block)
    ensures Off(bs + [b], |bs|) == Blocks.HeapSize(bs) && (bs + [b])[|bs|] == b
    ensures Off(bs + [b], |bs| + 1) == Blocks.HeapSize(bs) + b.size
  {
    assert (bs + [b])[..|bs|] == bs;
    SumStep(bs + [b], |bs|);
  }

  lemma ExtendOff(bs: seq<Block>, size: int)
    ensures var c, e := bs + [Block(size, false)], Extend(bs, size);
      e != [] && Off(e, |e| - 1) == Off(c, MergeLo(c, |bs|))
  {
    var c, e := bs + [Block(size, false)], Extend(bs, size);
    var lo := MergeLo(c, |bs|);
    assert MergeHi(c, |bs|) == |c| && |e| == lo + 1;
    assert e[..lo] == c[..lo];
  }

  lemma FreeIndices(bs: seq<Block>, lo: int, hi: int)
    requires AllGood(bs) && 0 <= lo <= hi <= |bs| && forall k | lo <= k < hi :: !bs[k].alloc
    ensures forall q | q in LiveBlocks(bs) :: !(lo <= Index(bs, FIRST_BP, q) < hi)
  {
    forall q | q in LiveBlocks(bs) ensures !(lo <= Index(bs, FIRST_BP, q) < hi) {
      Locate(bs, FIRST_BP, true, q);
    }
  }

  lemma CoalesceFrame(m: seq<byte>, r: seq<byte>, bs: seq<Block>, i: int)
    requires AllGood(bs) && 0 <= i < |bs| && !bs[i].alloc
    requires SameOutside(m, r, Off(bs, MergeLo(bs, i)) - 4, Off(bs, MergeHi(bs, i)) - 4)
    ensures KeepsBytes(m, r, LiveBlocks(bs))
  {
    MergedRun(bs, i);
    FreeIndices(bs, MergeLo(bs, i), MergeHi(bs, i));
    FrameLive(m, r, bs, MergeLo(bs, i), MergeHi(bs, i), LiveBlocks(bs));
  }

  lemma ExtendFrame(m: seq<byte>, r: seq<byte>, s: seq<byte>, bs: seq<Block>, b: Block)
    requires Canonical(bs) && Good(b) && !b.alloc
    requires SameOutside(m, r, Blocks.HeapSize(bs) - 4, Blocks.HeapSize(bs) + b.size)
    requires var c := bs + [b];
      SameOutside(r, s, Off(c, MergeLo(c, |bs|)) - 4, Off(c, MergeHi(c, |bs|)) - 4)
    ensures KeepsBytes(m, s, LiveBlocks(bs))
  {
    var c := bs + [b];
    GoodConcat(bs, [b]);
    CoalesceFrame(r, s, c, |bs|);
    forall q | q in LiveBlocks(bs) ensures Index(bs, FIRST_BP, q) < |bs| {
      Locate(bs, FIRST_BP, true, q);
    }
    assert bs[..|bs|] == bs;
    FrameBelow(m, r, bs, |bs|, Blocks.HeapSize(bs) + b.size, LiveBlocks(bs));
    AtOne(b, FIRST_BP + Sum(bs), true);
    AtConcat(bs, [b], FIRST_BP, true);
    KeepsBytesTrans(m, r, s, LiveBlocks(bs), LiveBlocks(c));
  }

  lemma FreeFrame(m: seq<byte>, r: seq<byte>, s: seq<byte>, bs: seq<Block>, i: int)
    requires Canonical(bs) && 0 <= i < |bs| && bs[i].alloc
    requires SameOutside(m, r, Off(bs, i) - 4, Off(bs, i + 1) - 4)
    requires var c := bs[i := Block(bs[i].size, false)];
      SameOutside(r, s, Off(c, MergeLo(c, i)) - 4, Off(c, MergeHi(c, i)) - 4)
    ensures KeepsBytes(m, s, LiveBlocks(bs) - {Off(bs, i)})
  {
    var c, q := bs[i := Block(bs[i].size, false)], Off(bs, i);
    FreedMaps(bs, i);
    Located(bs, FIRST_BP, i);
    IndexInjective(bs, q);
    FrameLive(m, r, bs, i, i + 1, LiveBlocks(bs) - {q});
    CoalesceFrame(r, s, c, i);
    KeepsBytesTrans(m, r, s, LiveBlocks(bs) - {q}, LiveBlocks(c));
  }

  // ------------------------------------------------------------------ free blocks

  /** The tags around a free block, by address. */
  lemma FreeBlock(m: seq<byte>, brk: int, bs: seq<Block>, q: int, exact: bool)
    requires Represents(m, brk, bs, exact) && q in FreeBlocks(bs)
    ensures var i := Index(bs, FIRST_BP, q); 0 <= i < |bs| && bs[i] == Block(FreeBlocks(bs)[q], false) && Off(bs, i) == q
    ensures FIRST_BP <= q && q + 8 <= q + FreeBlocks(bs)[q] - 8 && q + FreeBlocks(bs)[q] <= brk <= |m| && q % 8 == 0
    ensures Word(m, q - 4) == Pack(FreeBlocks(bs)[q], false) && SizeOf(Word(m, q - 4)) == FreeBlocks(bs)[q]
  {
    Locate(bs, FIRST_BP, false, q);
    NextNeighbour(m, brk, bs, Index(bs, FIRST_BP, q), exact);
    PackFields(FreeBlocks(bs)[q], false);
  }

  /** Storing in the payload of a free block changes no block and no live byte. */
  lemma FreePayloadWritten(m: seq<byte>, r: seq<byte>, brk: int, bs: seq<Block>, q: int, lo: int, hi: int, exact: bool)
    requires Represents(m, brk, bs, exact) && q in FreeBlocks(bs)
    requires q <= lo && hi <= q + FreeBlocks(bs)[q] - OVERHEAD && SameOutside(m, r, lo, hi)
    ensures Represents(r, brk, bs, exact) && KeepsBytes(m, r, LiveBlocks(bs))
  {
    Locate(bs, FIRST_BP, false, q);
    var i := Index(bs, FIRST_BP, q);
    PayloadAt(m, r, brk, bs, i, lo, hi, exact);
    FreeIndices(bs, i, i + 1);
    OffBounds(bs, i);
    FrameLive(m, r, bs, i, i + 1, LiveBlocks(bs));
  }

  /** What merging at block i takes from the free blocks. */
  function RunAddresses(bs: seq<Block>, i: int): set<int>
    requires 0 <= i < |bs|
  {
    set k | MergeLo(bs, i) <= k < MergeHi(bs, i) :: Off(bs, k)
  }

  lemma {:induction false} AddressesOfFree(bs: seq<Block>, p: int)
    requires forall k | 0 <= k < |bs| :: !bs[k].alloc
    ensures forall q :: q in At(bs, p, false) <==> exists k :: 0 <= k < |bs| && q == p + Sum(bs[..k])
  {
    if bs != [] {
      var rest, p' := bs[1..], p + bs[0].size;
      AddressesOfFree(rest, p');
      assert forall k | 0 <= k < |rest| :: bs[..k + 1] == [bs[0]] + rest[..k];
      forall q ensures q in At(bs, p, false) <==> exists k :: 0 <= k < |bs| && q == p + Sum(bs[..k]) {
        if q == p {
          assert q == p + Sum(bs[..0]);
        } else if q in At(rest, p', false) {
          var k :| 0 <= k < |rest| && q == p' + Sum(rest[..k]);
          assert bs[..k + 1] == [bs[0]] + rest[..k];
          assert q == p + Sum(bs[..k + 1]);
        } else if exists k :: 0 <= k < |bs| && q == p + Sum(bs[..k]) {
          var k :| 0 <= k < |bs| && q == p + Sum(bs[..k]);
          assert bs[..k] == [bs[0]] + rest[..k - 1];
        }
      }
    }
  }

  lemma CoalesceFree(bs: seq<Block>, i: int)
    requires Loose(bs, i)
    ensures var lo, hi := MergeLo(bs, i), MergeHi(bs, i);
      FreeBlocks(Coalesce(bs, i)) == (FreeBlocks(bs) - RunAddresses(bs, i))[Off(bs, lo) := Off(bs, hi) - Off(bs, lo)]
  {
    hide Sum, SumAlloc, At;
    var lo, hi := MergeLo(bs, i), MergeHi(bs, i);
    var run := bs[lo..hi];
    var merged := Block(Sum(run), false);
    MergedRun(bs, i);
    SumSlice(bs, lo, hi);
    AtOne(merged, Off(bs, lo), false);
    SpliceMaps(bs, lo, hi, [merged], false);
    AddressesOfFree(run, Off(bs, lo));
    forall k | 0 <= k < |run| ensures Off(bs, lo) + Sum(run[..k]) == Off(bs, lo + k) {
      SumSlice(bs, lo, lo + k);
      assert bs[lo..lo + k] == run[..k];
    }
    var keys := At(run, Off(bs, lo), false).Keys;
    forall q ensures q in keys <==> q in RunAddresses(bs, i) {
      if q in keys {
        var k :| 0 <= k < |run| && q == Off(bs, lo) + Sum(run[..k]);
        assert q == Off(bs, lo + k);
      }
      if q in RunAddresses(bs, i) {
        var k :| lo <= k < hi && q == Off(bs, k);
        assert q == Off(bs, lo) + Sum(run[..k - lo]);
      }
    }
    assert keys == RunAddresses(bs, i);
  }

  lemma PlaceFree(bs: seq<Block>, i: int, asize: int)
    requires Canonical(bs) && 0 <= i < |bs| && Fits(bs[i], asize)
    requires MIN_BLOCK <= asize && asize % 8 == 0
    ensures var q := Off(bs, i);
      FreeBlocks(Place(bs, i, asize)) == (FreeBlocks(bs) - {q}) +
        if bs[i].size - asize >= MIN_BLOCK then map[q + asize := bs[i].size - asize] else map[]
  {
    hide Sum, SumAlloc, At;
    assert bs[i..i + 1] == [bs[i]];
    AtOne(bs[i], Off(bs, i), false);
    PlaceOneMaps(bs[i], asize, Off(bs, i), false);
    SpliceMaps(bs, i, i + 1, PlaceOne(bs[i], asize), false);
  }

  lemma AppendFree(bs: seq<Block>, b: Block)
    requires AllGood(bs) && Good(b) && !b.alloc
    ensures FreeBlocks(bs + [b]) == FreeBlocks(bs)[Blocks.HeapSize(bs) := b.size] && Blocks.HeapSize(bs) !in FreeBlocks(bs)
    ensures LiveBlocks(bs + [b]) == LiveBlocks(bs)
  {
    AtOne(b, FIRST_BP + Sum(bs), false);
    AtOne(b, FIRST_BP + Sum(bs), true);
    AtConcat(bs, [b], FIRST_BP, false);
    AtConcat(bs, [b], FIRST_BP, true);
    AtRange(bs, FIRST_BP, false);
  }
}
