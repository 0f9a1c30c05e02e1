/**
 The driver's range list: a singly linked list of the payload extents of the live blocks.
 */
module Ranges {
  import opened Blocks
  import opened MemLib

  /** The first and the last byte of a payload. */
  datatype Range = Range(lo: int, hi: int)

  /** The overlap test: an endpoint of lo..hi lies in r. */
  predicate Touches(lo: int, hi: int, r: Range) {
    (lo >= r.lo && lo <= r.hi) || (hi >= r.lo && hi <= r.hi)
  }

  predicate Disjoint(lo: int, hi: int, r: Range) {
    hi < r.lo || r.hi < lo
  }

  /** What add_range accepts. */
  ghost predicate Acceptable(rs: seq<Range>, lo: int, size: int, heapLo: int, heapHi: int) {
    && lo % 8 == 0
    && heapLo <= lo <= heapHi && heapLo <= lo + size - 1 <= heapHi
    && forall k | 0 <= k < |rs| :: !Touches(lo, lo + size - 1, rs[k])
  }

  /** rs without its first range at lo. */
  function Without(rs: seq<Range>, lo: int): seq<Range> {
    if rs == [] then [] else if rs[0].lo == lo then rs[1..] else [rs[0]] + Without(rs[1..], lo)
  }

  /**
   The test sees less than an overlap: it passes a range that is disjoint from the old one,
   and also one that strictly encloses it.
   */
  lemma OverlapTestExact(lo: int, hi: int, r: Range)
    requires lo <= hi && r.lo <= r.hi
    ensures !Touches(lo, hi, r) <==> Disjoint(lo, hi, r) || (lo < r.lo && r.hi < hi)
  {
  }

  /** What add_range accepts over ranges that are not empty: aligned, in the heap, disjoint from or strictly around each. */
  lemma AcceptableMeaning(rs: seq<Range>, lo: int, size: int, brk: int)
    requires size > 0 && forall k | 0 <= k < |rs| :: rs[k].lo <= rs[k].hi
    ensures Acceptable(rs, lo, size, 0, brk - 1) <==>
      && lo % 8 == 0 && 0 <= lo && lo + size <= brk
      && forall k | 0 <= k < |rs| ::
           lo + size - 1 < rs[k].lo || rs[k].hi < lo || (lo < rs[k].lo && rs[k].hi < lo + size - 1)
  {
    forall k | 0 <= k < |rs|
      ensures !Touches(lo, lo + size - 1, rs[k]) <==>
        lo + size - 1 < rs[k].lo || rs[k].hi < lo || (lo < rs[k].lo && rs[k].hi < lo + size - 1)
    {
      OverlapTestExact(lo, lo + size - 1, rs[k]);
    }
  }

  /** An overlap that is accepted: 16..47 over 24..31. */
  lemma EnclosureMissed()
    ensures var r := Range(24, 31);
      !Disjoint(16, 47, r) && Acceptable([r], 16, 32, 0, 4111)
  {
    assert forall k | 0 <= k < |[Range(24, 31)]| :: !Touches(16, 47, [Range(24, 31)][k]);
  }

  class RangeNode {
    const lo: int
    const hi: int
    var next: RangeNode?

    constructor (lo: int, hi: int, next: RangeNode?)
      ensures this.lo == lo && this.hi == hi && this.next == next
    {
      this.lo := lo;
      this.hi := hi;
      this.next := next;
    }
  }

  class RangeList {
    var head: RangeNode?
    ghost var nodes: seq<RangeNode>

    ghost predicate Valid()
      reads this, nodes
    {
      && head == NodeAt(nodes, 0)
      && (forall i | 0 <= i < |nodes| :: Chained(nodes, i))
      && (forall i, j | 0 <= i < j < |nodes| :: nodes[i] != nodes[j])
    }

    ghost function Contents(): seq<Range>
      reads this
    {
      RangesOf(nodes)
    }

    constructor ()
      ensures Valid() && Contents() == [] && nodes == []
    {
      head := null;
      nodes := [];
    }

    /**
     add_range: whether the range is accepted, and then it is put first.  It is accepted when
     it is 8-aligned, in the heap, and disjoint from, or strictly around, each stored one.
     */
    method AddRange(lo: int, size: int, h: Heap) returns (ok: bool)
      requires Valid() && size > 0
      modifies this
      ensures Valid()
      ensures ok <==> Acceptable(old(Contents()), lo, size, h.HeapLo(), h.HeapHi())
      ensures (forall k | 0 <= k < |old(Contents())| :: old(Contents())[k].lo <= old(Contents())[k].hi) ==>
        (ok <==>
          && lo % 8 == 0 && 0 <= lo && lo + size <= h.brk
          && forall k | 0 <= k < |old(Contents())| ::
               || lo + size - 1 < old(Contents())[k].lo || old(Contents())[k].hi < lo
               || (lo < old(Contents())[k].lo && old(Contents())[k].hi < lo + size - 1))
      ensures Contents() == if ok then [Range(lo, lo + size - 1)] + old(Contents()) else old(Contents())
      ensures forall n | n in nodes :: n in old(nodes) || fresh(n)
    {
      var hi := lo + size - 1;
      ghost var rs := Contents();
      if forall k | 0 <= k < |rs| :: rs[k].lo <= rs[k].hi {
        AcceptableMeaning(rs, lo, size, h.brk);
      }
      if lo % 8 != 0 {
        return false;
      }
      if lo < h.HeapLo() || lo > h.HeapHi() || hi < h.HeapLo() || hi > h.HeapHi() {
        return false;
      }
      var p := head;
      ghost var k := 0;
      while p != null
        invariant 0 <= k <= |nodes| && p == NodeAt(nodes, k)
        invariant forall j | 0 <= j < k :: !Touches(lo, hi, rs[j])
        decreases |nodes| - k
      {
        if (lo >= p.lo && lo <= p.hi) || (hi >= p.lo && hi <= p.hi) {
          assert Touches(lo, hi, rs[k]);
          return false;
        }
        assert Chained(nodes, k);
        p := p.next;
        k := k + 1;
      }
      Prepend(lo, hi);
      ok := true;
    }

    /** The record add_range puts first. */
    method Prepend(lo: int, hi: int)
      requires Valid()
      modifies this
      ensures Valid() && Contents() == [Range(lo, hi)] + old(Contents())
      ensures forall n | n in nodes :: n in old(nodes) || fresh(n)
    {
      var p := new RangeNode(lo, hi, head);
      head := p;
      ghost var was := nodes;
      nodes := [p] + nodes;
      forall i | 0 <= i < |nodes| ensures Chained(nodes, i) {
        if i > 0 {
          assert nodes[i] == was[i - 1];
          assert old(Chained(nodes, i - 1));
        }
      }
      assert forall i | 0 < i < |nodes| :: nodes[i] == was[i - 1];
    }

    /** remove_range: unlinks the first record that starts at lo. */
    method RemoveRange(lo: int)
      requires Valid()
      modifies this, nodes
      ensures Valid()
      ensures Contents() == Without(old(Contents()), lo)
      ensures forall n | n in nodes :: n in old(nodes)
    {
      var p, prev: RangeNode? := head, null;
      ghost var k := 0;
      while p != null && p.lo != lo
        invariant 0 <= k <= |nodes| && p == NodeAt(nodes, k)
        invariant prev == if k == 0 then null else nodes[k - 1]
        invariant forall j | 0 <= j < k :: nodes[j].lo != lo
        decreases |nodes| - k
      {
        assert Chained(nodes, k);
        prev := p;
        p := p.next;
        k := k + 1;
      }
      WithoutAt(Contents(), k, lo);
      if p != null {
        Unlink(p, prev, k);
      }
    }

    /** *prevpp = p->next, where prevpp points at the head or into the record before p. */
    method Unlink(p: RangeNode, prev: RangeNode?, ghost k: int)
      requires Valid() && 0 <= k < |nodes| && p == nodes[k]
      requires prev == if k == 0 then null else nodes[k - 1]
      modifies this, nodes
      ensures Valid() && nodes == old(nodes[..k] + nodes[k + 1..])
    {
      assert Chained(nodes, k);
      if prev == null {
        head := p.next;
      } else {
        prev.next := p.next;
      }
      ghost var was := nodes;
      nodes := was[..k] + was[k + 1..];
      assert forall i | 0 <= i < |nodes| :: nodes[i] == was[if i < k then i else i + 1];
      forall i | 0 <= i < |nodes| ensures Chained(nodes, i) {
        var j := if i < k then i else i + 1;
        assert nodes[i] == was[j];
        assert old(Chained(nodes, j));
      }
    }

    /** clear_ranges. */
    method ClearRanges()
      modifies this
      ensures Valid() && Contents() == [] && nodes == []
    {
      head := null;
      nodes := [];
    }
  }

  /** Node i, null past the end. */
  ghost function NodeAt(nodes: seq<RangeNode>, i: int): RangeNode?
    requires 0 <= i <= |nodes|
  {
    if i < |nodes| then nodes[i] else null
  }

  ghost predicate Chained(nodes: seq<RangeNode>, i: int)
    requires 0 <= i < |nodes|
    reads nodes
  {
    nodes[i].next == NodeAt(nodes, i + 1)
  }

  ghost function RangesOf(nodes: seq<RangeNode>): (rs: seq<Range>)
    ensures |rs| == |nodes| && forall i | 0 <= i < |nodes| :: rs[i] == Range(nodes[i].lo, nodes[i].hi)
  {
    seq(|nodes|, i requires 0 <= i < |nodes| => Range(nodes[i].lo, nodes[i].hi))
  }

  lemma {:induction false} WithoutAt(rs: seq<Range>, k: int, lo: int)
    requires 0 <= k <= |rs| && (k < |rs| ==> rs[k].lo == lo) && forall j | 0 <= j < k :: rs[j].lo != lo
    ensures Without(rs, lo) == if k < |rs| then rs[..k] + rs[k + 1..] else rs
  {
    if k > 0 {
      WithoutAt(rs[1..], k - 1, lo);
      assert rs == [rs[0]] + rs[1..];
    }
  }
}
