/**
 Freeing has a closed form: clear the allocated bits, then merge every run of adjacent free
 blocks.  So the order in which blocks are freed leaves no trace in the heap.
 */
module CanonicalForm {
  import opened Blocks
  import opened Effects

  /** b put in front of rest, merged with its first block when both are free. */
  function Push(b: Block, rest: seq<Block>): seq<Block> {
    if !b.alloc && rest != [] && !rest[0].alloc then [Block(b.size + rest[0].size, false)] + rest[1..]
    else [b] + rest
  }

  /** Every maximal run of free blocks merged into one. */
  function Merged(bs: seq<Block>): seq<Block> {
    if bs == [] then [] else Push(bs[0], Merged(bs[1..]))
  }

  /** The blocks at the addresses in s made free, nothing merged; the first payload is at p. */
  function Cleared(bs: seq<Block>, p: int, s: set<int>): seq<Block> {
    if bs == [] then []
    else [Block(bs[0].size, bs[0].alloc && p !in s)] + Cleared(bs[1..], p + bs[0].size, s)
  }

  /** mm_free called on each address in turn. */
  function ReleaseAll(bs: seq<Block>, qs: seq<int>): seq<Block>
    decreases qs
  {
    if qs == [] then bs else ReleaseAll(Release(bs, qs[0]), qs[1..])
  }

  ghost predicate Distinct(qs: seq<int>) {
    forall i, j | 0 <= i < j < |qs| :: qs[i] != qs[j]
  }

  function Elements(qs: seq<int>): set<int> {
    set q | q in qs
  }

  // ------------------------------------------------------------------ merging

  lemma {:induction false} MergedCanonical(bs: seq<Block>)
    requires AllGood(bs)
    ensures Canonical(Merged(bs)) && Sum(Merged(bs)) == Sum(bs)
  {
    if bs != [] {
      MergedCanonical(bs[1..]);
      var r := Merged(bs[1..]);
      assert ([bs[0]] + r)[1..] == r;
      if r != [] {
        assert ([Block(bs[0].size + r[0].size, false)] + r[1..])[1..] == r[1..];
      }
    }
  }

  lemma {:induction false} MergedFixed(bs: seq<Block>)
    requires NoAdjacentFree(bs)
    ensures Merged(bs) == bs
  {
    if bs != [] {
      forall i | 0 < i < |bs[1..]| ensures bs[1..][i - 1].alloc || bs[1..][i].alloc {
        assert bs[i].alloc || bs[i + 1].alloc;
      }
      MergedFixed(bs[1..]);
      if |bs| > 1 {
        assert bs[0].alloc || bs[1].alloc;
      }
    }
  }

  /** Merging a tail first makes no difference. */
  lemma {:induction false} MergedTail(a: seq<Block>, b: seq<Block>)
    requires AllGood(b)
    ensures Merged(a + Merged(b)) == Merged(a + b)
  {
    if a == [] {
      MergedCanonical(b);
      MergedFixed(Merged(b));
      assert a + Merged(b) == Merged(b) && a + b == b;
    } else {
      MergedTail(a[1..], b);
      assert (a + b)[1..] == a[1..] + b && (a + Merged(b))[1..] == a[1..] + Merged(b);
    }
  }

  /** Merging two free blocks by hand makes no difference. */
  lemma PushTwice(x: Block, y: Block, r: seq<Block>)
    requires !x.alloc && !y.alloc
    ensures Push(Block(x.size + y.size, false), r) == Push(x, Push(y, r))
  {
  }

  /** Merging any run of free blocks by hand makes no difference. */
  lemma {:induction false} MergedRunByHand(mid: seq<Block>, post: seq<Block>)
    requires mid != [] && forall k | 0 <= k < |mid| :: !mid[k].alloc
    ensures Merged(mid + post) == Push(Block(Sum(mid), false), Merged(post))
  {
    assert (mid + post)[1..] == mid[1..] + post;
    if |mid| == 1 {
      assert mid[1..] + post == post;
    } else {
      MergedRunByHand(mid[1..], post);
      PushTwice(mid[0], Block(Sum(mid[1..]), false), Merged(post));
    }
  }

  /** Coalescing at a freshly freed block is merging everywhere. */
  lemma CoalesceIsMerged(bs: seq<Block>, i: int)
    requires Loose(bs, i)
    ensures Coalesce(bs, i) == Merged(bs)
  {
    var lo, hi := MergeLo(bs, i), MergeHi(bs, i);
    MergedRun(bs, i);
    assert bs == bs[..lo] + (bs[lo..hi] + bs[hi..]);
    MergedRunInside(bs[..lo], bs[lo..hi], bs[hi..]);
    CoalesceCanonical(bs, i);
    MergedFixed(Coalesce(bs, i));
  }

  lemma MergedRunInside(pre: seq<Block>, mid: seq<Block>, post: seq<Block>)
    requires AllGood(pre) && AllGood(mid) && AllGood(post)
    requires mid != [] && forall k | 0 <= k < |mid| :: !mid[k].alloc
    ensures Merged(pre + (mid + post)) == Merged(pre + [Block(Sum(mid), false)] + post)
  {
    var one := Block(Sum(mid), false);
    assert pre + [one] + post == pre + ([one] + post);
    SumBounds(mid);
    MergedRunByHand(mid, post);
    assert ([one] + post)[1..] == post;
    assert Merged([one] + post) == Merged(mid + post);
    MergedTail(pre, mid + post);
    MergedTail(pre, [one] + post);
  }

  // ------------------------------------------------------------------ clearing

  lemma {:induction false} ClearedGood(bs: seq<Block>, p: int, s: set<int>)
    requires AllGood(bs)
    ensures AllGood(Cleared(bs, p, s))
  {
    if bs != [] {
      ClearedGood(bs[1..], p + bs[0].size, s);
    }
  }

  lemma {:induction false} ClearedTwice(bs: seq<Block>, p: int, s: set<int>, t: set<int>)
    ensures Cleared(Cleared(bs, p, s), p, t) == Cleared(bs, p, s + t)
  {
    if bs != [] {
      ClearedTwice(bs[1..], p + bs[0].size, s, t);
      assert Cleared(bs, p, s)[1..] == Cleared(bs[1..], p + bs[0].size, s);
    }
  }

  /** Clearing below the first address does nothing. */
  lemma {:induction false} ClearedBelow(bs: seq<Block>, p: int, q: int)
    requires AllGood(bs) && q < p
    ensures Cleared(bs, p, {q}) == bs
  {
    if bs != [] {
      ClearedBelow(bs[1..], p + bs[0].size, q);
    }
  }

  lemma {:induction false} ClearedOne(bs: seq<Block>, p: int, i: int)
    requires AllGood(bs) && 0 <= i < |bs|
    ensures Cleared(bs, p, {p + Sum(bs[..i])}) == bs[i := Block(bs[i].size, false)]
  {
    if i == 0 {
      ClearedBelow(bs[1..], p + bs[0].size, p);
    } else {
      assert bs[..i] == [bs[0]] + bs[1..][..i - 1];
      SumBounds(bs[1..][..i - 1]);
      ClearedOne(bs[1..], p + bs[0].size, i - 1);
    }
  }

  /** Merging before clearing makes no difference once everything is merged afterwards. */
  lemma {:induction false} MergedCleared(bs: seq<Block>, p: int, s: set<int>)
    ensures Merged(Cleared(Merged(bs), p, s)) == Merged(Cleared(bs, p, s))
  {
    if bs != [] {
      var p' := p + bs[0].size;
      MergedCleared(bs[1..], p', s);
      assert Cleared(bs, p, s)[1..] == Cleared(bs[1..], p', s);
      PushCleared(bs[0], Merged(bs[1..]), p, s);
    }
  }

  /** The step of the previous lemma: one block b in front of merged blocks r. */
  lemma PushCleared(b: Block, r: seq<Block>, p: int, s: set<int>)
    ensures Merged(Cleared(Push(b, r), p, s)) ==
            Push(Block(b.size, b.alloc && p !in s), Merged(Cleared(r, p + b.size, s)))
  {
    var p' := p + b.size;
    if !b.alloc && r != [] && !r[0].alloc {
      var c := Block(b.size + r[0].size, false);
      var tail := Cleared(r[1..], p' + r[0].size, s);
      assert Push(b, r)[1..] == r[1..];
      assert Cleared(Push(b, r), p, s) == [c] + tail;
      assert ([c] + tail)[1..] == tail;
      assert Cleared(r, p', s) == [r[0]] + tail;
      assert ([r[0]] + tail)[1..] == tail;
      PushTwice(b, r[0], Merged(tail));
    } else {
      assert Push(b, r)[1..] == r;
      assert Cleared(Push(b, r), p, s)[1..] == Cleared(r, p', s);
    }
  }

  // ------------------------------------------------------------------ theorems

  /** mm_free is: clear one allocated bit, merge everything. */
  lemma ReleaseIsMerged(bs: seq<Block>, q: int)
    requires Canonical(bs) && q in LiveBlocks(bs)
    ensures Release(bs, q) == Merged(Cleared(bs, FIRST_BP, {q}))
  {
    Locate(bs, FIRST_BP, true, q);
    var i := Index(bs, FIRST_BP, q);
    FreedMaps(bs, i);
    ClearedOne(bs, FIRST_BP, i);
    CoalesceIsMerged(bs[i := Block(bs[i].size, false)], i);
  }

  /** Freeing live blocks one after the other depends only on the set of addresses. */
  lemma {:induction false} ReleaseAllClosedForm(bs: seq<Block>, qs: seq<int>)
    requires Canonical(bs) && Distinct(qs) && Elements(qs) <= LiveBlocks(bs).Keys
    ensures Canonical(ReleaseAll(bs, qs))
    ensures ReleaseAll(bs, qs) == Merged(Cleared(bs, FIRST_BP, Elements(qs)))
    ensures LiveBlocks(ReleaseAll(bs, qs)) == LiveBlocks(bs) - Elements(qs)
    decreases qs
  {
    if qs == [] {
      assert Elements(qs) == {};
      ClearedNothing(bs, FIRST_BP);
      MergedFixed(bs);
    } else {
      var q, rest := qs[0], qs[1..];
      var r := Release(bs, q);
      FirstAndRest(qs);
      ReleaseEffect(bs, q);
      ReleaseAllClosedForm(r, rest);
      assert Merged(Cleared(r, FIRST_BP, Elements(rest))) == Merged(Cleared(bs, FIRST_BP, {q} + Elements(rest))) by {
        ReleaseIsMerged(bs, q);
        MergedCleared(Cleared(bs, FIRST_BP, {q}), FIRST_BP, Elements(rest));
        ClearedTwice(bs, FIRST_BP, {q}, Elements(rest));
      }
      assert LiveBlocks(bs) - ({q} + Elements(rest)) == (LiveBlocks(bs) - {q}) - Elements(rest);
    }
  }

  lemma FirstAndRest(qs: seq<int>)
    requires Distinct(qs) && qs != []
    ensures Elements(qs) == {qs[0]} + Elements(qs[1..])
    ensures Distinct(qs[1..]) && qs[0] !in Elements(qs[1..]) && qs[0] in Elements(qs)
  {
    assert qs == [qs[0]] + qs[1..];
  }

  lemma {:induction false} ClearedNothing(bs: seq<Block>, p: int)
    ensures Cleared(bs, p, {}) == bs
  {
    if bs != [] {
      ClearedNothing(bs[1..], p + bs[0].size);
    }
  }

  /** Any two orders of freeing the same blocks give the same heap. */
  lemma FreeOrderIrrelevant(bs: seq<Block>, qs: seq<int>, rs: seq<int>)
    requires Canonical(bs) && Distinct(qs) && Distinct(rs)
    requires Elements(qs) == Elements(rs) <= LiveBlocks(bs).Keys
    ensures ReleaseAll(bs, qs) == ReleaseAll(bs, rs)
  {
    ReleaseAllClosedForm(bs, qs);
    ReleaseAllClosedForm(bs, rs);
  }

  /** Merged blocks without a live one among them are a single free block. */
  lemma NoneLiveIsOne(r: seq<Block>)
    requires Canonical(r) && LiveBlocks(r) == map[] && Sum(r) > 0
    ensures r == [Block(Sum(r), false)]
  {
    hide At;
    forall i | 0 <= i < |r| ensures !r[i].alloc {
      Located(r, FIRST_BP, i);
    }
    assert |r| == 1;
    assert r == [r[0]];
    AtOne(r[0], FIRST_BP, true);
  }

  /** Freeing everything, in any order, leaves one free block that fills the heap. */
  lemma FreeAllLeavesOne(bs: seq<Block>, qs: seq<int>)
    requires Canonical(bs) && bs != [] && Distinct(qs) && Elements(qs) == LiveBlocks(bs).Keys
    ensures ReleaseAll(bs, qs) == [Block(HeapSize(bs) - FIRST_BP, false)]
  {
    hide At, Merged, Cleared, ReleaseAll, Sum;
    ReleaseAllClosedForm(bs, qs);
    ClearedGood(bs, FIRST_BP, Elements(qs));
    MergedCanonical(Cleared(bs, FIRST_BP, Elements(qs)));
    ClearedSum(bs, FIRST_BP, Elements(qs));
    SumBounds(bs);
    assert LiveBlocks(ReleaseAll(bs, qs)) == map[];
    NoneLiveIsOne(ReleaseAll(bs, qs));
  }

  lemma {:induction false} ClearedSum(bs: seq<Block>, p: int, s: set<int>)
    ensures Sum(Cleared(bs, p, s)) == Sum(bs)
  {
    if bs != [] {
      ClearedSum(bs[1..], p + bs[0].size, s);
      assert Cleared(bs, p, s)[1..] == Cleared(bs[1..], p + bs[0].size, s);
    }
  }
}
