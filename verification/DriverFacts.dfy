/**
 Why the driver's checks do not fire on a sound state: the facts about ranges and payload
 bytes that its trace loop keeps.
 */
module DriverFacts {
  import opened Words
  import opened Blocks
  import opened Effects
  import opened Layout
  import opened ImplicitList
  import opened Traces
  import opened Ranges

  /** The extent of a held slot's payload. */
  function RangeOf(bp: int, size: int): Range {
    Range(bp, bp + size - 1)
  }

  /** The range list holds exactly one range per live id, that of its payload. */
  ghost predicate RangesMatch(rs: seq<Range>, slots: seq<Slot>) {
    && (forall k | 0 <= k < |rs| :: InSlots(rs[k], slots))
    && (forall i | 0 <= i < |slots| && slots[i].Held? :: RangeOf(slots[i].bp, slots[i].size) in rs)
    && (forall k, l | 0 <= k < l < |rs| :: rs[k].lo != rs[l].lo)
  }

  ghost predicate InSlots(r: Range, slots: seq<Slot>) {
    exists i :: 0 <= i < |slots| && slots[i].Held? && r == RangeOf(slots[i].bp, slots[i].size)
  }

  /** The payload of slot i holds its id's low byte. */
  ghost predicate FilledSlot(m: seq<byte>, s: Slot, i: int) {
    s.Held? ==> 0 <= s.bp && s.bp + s.size <= |m| && forall a | s.bp <= a < s.bp + s.size :: m[a] == i % 0x100
  }

  ghost predicate Filled(m: seq<byte>, slots: seq<Slot>) {
    forall i | 0 <= i < |slots| :: FilledSlot(m, slots[i], i)
  }

  /** m with the payload at p filled with the low byte of id. */
  ghost predicate FilledIn(m: seq<byte>, r: seq<byte>, p: int, size: int, id: int) {
    SameOutside(m, r, p, p + size) && forall a | 0 <= a < |r| && p <= a < p + size :: r[a] == id % 0x100
  }

  /** The first bytes of the payload at p, as many as lie within both sizes, are the low byte of id. */
  ghost predicate HoldsOld(m: seq<byte>, p: int, size: int, oldSize: int, id: int) {
    && 0 < size && 0 < oldSize && 0 <= p < |m|
    && forall a | 0 <= a < |m| && p <= a < p + size && a < p + oldSize :: m[a] == id % 0x100
  }

  /** Every held slot has a live block other than the one at bp, with room for its payload. */
  ghost predicate SlotsBeside(slots: seq<Slot>, live: map<int, int>, bp: int) {
    forall i | 0 <= i < |slots| && slots[i].Held? ::
      slots[i].bp in live && slots[i].bp != bp && 0 < slots[i].size && slots[i].size + OVERHEAD <= live[slots[i].bp]
  }

  /** What makes the live block at p a fit for a new slot, with m in memory and rs in the range list. */
  ghost predicate Addable(bs: seq<Block>, slots: seq<Slot>, m: seq<byte>, rs: seq<Range>, p: int, size: int) {
    && p in LiveBlocks(bs) && 0 < p && 0 < size && size + OVERHEAD <= LiveBlocks(bs)[p]
    && SlotsBeside(slots, LiveBlocks(bs), p) && Filled(m, slots)
    && Acceptable(rs, p, size, 0, HeapSize(bs) - 1)
  }

  lemma AddableAcceptable(bs: seq<Block>, slots: seq<Slot>, m: seq<byte>, rs: seq<Range>, p: int, size: int)
    requires Addable(bs, slots, m, rs, p, size)
    ensures size > 0 && Acceptable(rs, p, size, 0, HeapSize(bs) - 1)
  {
  }

  /** Payloads of kept blocks keep their bytes. */
  lemma FilledKept(m: seq<byte>, r: seq<byte>, slots: seq<Slot>, live: map<int, int>)
    requires Filled(m, slots) && KeepsBytes(m, r, live)
    requires forall i | 0 <= i < |slots| && slots[i].Held? :: slots[i].bp in live && slots[i].size + OVERHEAD <= live[slots[i].bp]
    ensures Filled(r, slots)
  {
    forall i | 0 <= i < |slots| ensures FilledSlot(r, slots[i], i) {
      assert FilledSlot(m, slots[i], i);
      if slots[i].Held? {
        var s := slots[i];
        assert s.bp in live && s.size + OVERHEAD <= live[s.bp];
      }
    }
  }

  /** A freshly filled payload beside kept ones. */
  lemma FilledUpdate(m: seq<byte>, slots: seq<Slot>, i: int, bp: int, size: int)
    requires 0 <= i < |slots| && Filled(m, slots[i := Dead])
    requires 0 <= bp && bp + size <= |m| && forall a | bp <= a < bp + size :: m[a] == i % 0x100
    ensures Filled(m, slots[i := Held(bp, size)])
  {
    var slots' := slots[i := Held(bp, size)];
    forall j | 0 <= j < |slots| ensures FilledSlot(m, slots'[j], j) {
      assert FilledSlot(m, slots[i := Dead][j], j);
    }
  }

  lemma FilledWithout(m: seq<byte>, slots: seq<Slot>, i: int)
    requires Filled(m, slots) && 0 <= i < |slots|
    ensures Filled(m, slots[i := Dead])
  {
    var slots' := slots[i := Dead];
    forall j | 0 <= j < |slots| ensures FilledSlot(m, slots'[j], j) {
      assert FilledSlot(m, slots[j], j);
    }
  }

  /** After mm_malloc in a sound state: the checks pass and no payload has changed. */
  lemma AllocFacts(st: State, id: int, size: int, m: seq<byte>, r: seq<byte>, rs: seq<Range>)
    requires Sound(st) && 0 <= id < |st.slots| && st.slots[id].Dead? && 0 < size < INT_LIMIT
    requires Allocate(st.blocks, size).bp != 0
    requires Filled(m, st.slots) && KeepsBytes(m, r, LiveBlocks(st.blocks)) && RangesMatch(rs, st.slots)
    ensures var a := Allocate(st.blocks, size);
      && Addable(a.blocks, st.slots, r, rs, a.bp, size)
      && RangesMatch([RangeOf(a.bp, size)] + rs, st.slots[id := Held(a.bp, size)])
  {
    hide Allocate, NeedsGrowth, Growth, Sum, SumAlloc, At;
    AllocateEffect(st.blocks, size);
    var a := Allocate(st.blocks, size);
    AtBounds(a.blocks, FIRST_BP, true, a.bp);
    forall i | 0 <= i < |st.slots| && st.slots[i].Held?
      ensures st.slots[i].bp in LiveBlocks(st.blocks) && 0 < st.slots[i].size && st.slots[i].size + OVERHEAD <= LiveBlocks(st.blocks)[st.slots[i].bp]
    {
      SlotLive(st, i);
    }
    FilledKept(m, r, st.slots, LiveBlocks(st.blocks));
    NewRangeAccepted(a.blocks, st.slots, rs, a.bp, size);
    RangesGained(rs, st.slots, id, a.bp, size);
  }

  /** After mm_free in a sound state: the record to unlink is there and no other payload has changed. */
  lemma FreeFacts(st: State, id: int, m: seq<byte>, r: seq<byte>, rs: seq<Range>)
    requires Sound(st) && 0 <= id < |st.slots| && st.slots[id].Held?
    requires Filled(m, st.slots) && RangesMatch(rs, st.slots)
    requires KeepsBytes(m, r, LiveBlocks(st.blocks) - {st.slots[id].bp})
    ensures Filled(r, st.slots[id := Dead])
    ensures RangesMatch(Without(rs, st.slots[id].bp), st.slots[id := Dead])
  {
    var slots := st.slots[id := Dead];
    OthersBeside(st, id);
    FilledWithout(m, st.slots, id);
    FilledKept(m, r, slots, LiveBlocks(st.blocks) - {st.slots[id].bp});
    RangesLost(rs, st.slots, id);
  }

  lemma OthersBeside(st: State, id: int)
    requires Sound(st) && 0 <= id < |st.slots| && st.slots[id].Held?
    ensures SlotsBeside(st.slots[id := Dead], LiveBlocks(st.blocks), st.slots[id].bp)
  {
    forall i | 0 <= i < |st.slots| && i != id && st.slots[i].Held? ensures SlotOk(st.slots[i], LiveBlocks(st.blocks)) {
    }
  }

  /** After mm_realloc in a sound state: every check passes, and the old bytes are in the new payload. */
  lemma ReallocFacts(st: State, id: int, size: int, m: seq<byte>, r: seq<byte>, rs: seq<Range>)
    requires Sound(st) && 0 <= id < |st.slots| && st.slots[id].Held? && 0 < size < INT_LIMIT
    requires Allocate(st.blocks, size).bp != 0
    requires Filled(m, st.slots) && RangesMatch(rs, st.slots)
    requires KeepsBytes(m, r, LiveBlocks(st.blocks) - {st.slots[id].bp})
    requires var a, oldp := Allocate(st.blocks, size), st.slots[id].bp;
      oldp in LiveBlocks(st.blocks) && SameBytes(m, oldp, r, a.bp, Min(size, LiveBlocks(st.blocks)[oldp] - OVERHEAD))
    ensures var a, oldp, slots := Allocate(st.blocks, size), st.slots[id].bp, st.slots[id := Dead];
      var bs, left := Release(a.blocks, oldp), Without(rs, oldp);
      && Addable(bs, slots, r, left, a.bp, size)
      && RangesMatch([RangeOf(a.bp, size)] + left, slots[id := Held(a.bp, size)])
      && HoldsOld(r, a.bp, size, st.slots[id].size, id)
  {
    hide Allocate, NeedsGrowth, Growth, Sum, SumAlloc, At, Release, SlotsOk, HeldSum;
    var a, oldp, slots := Allocate(st.blocks, size), st.slots[id].bp, st.slots[id := Dead];
    var bs := Release(a.blocks, oldp);
    AllocateEffect(st.blocks, size);
    ReleaseEffect(a.blocks, oldp);
    AtBounds(bs, FIRST_BP, true, a.bp);
    FreeFacts(st, id, m, r, rs);
    OthersBeside(st, id);
    SlotLive(st, id);
    NewRangeAccepted(bs, slots, Without(rs, oldp), a.bp, size);
    RangesGained(Without(rs, oldp), slots, id, a.bp, size);
    assert FilledSlot(m, st.slots[id], id);
  }

  // ------------------------------------------------------------------ ranges

  lemma RangesGained(rs: seq<Range>, slots: seq<Slot>, i: int, bp: int, size: int)
    requires RangesMatch(rs, slots) && 0 <= i < |slots| && slots[i].Dead?
    requires forall j | 0 <= j < |slots| && slots[j].Held? :: slots[j].bp != bp
    ensures RangesMatch([RangeOf(bp, size)] + rs, slots[i := Held(bp, size)])
  {
    var r, slots' := RangeOf(bp, size), slots[i := Held(bp, size)];
    var rs' := [r] + rs;
    forall k | 0 <= k < |rs'| ensures InSlots(rs'[k], slots') && (k > 0 ==> rs'[k].lo != bp) {
      if k == 0 {
        assert slots'[i].Held? && r == RangeOf(slots'[i].bp, slots'[i].size);
      } else {
        assert InSlots(rs[k - 1], slots);
        var j :| 0 <= j < |slots| && slots[j].Held? && rs[k - 1] == RangeOf(slots[j].bp, slots[j].size);
        assert slots'[j] == slots[j];
      }
    }
    forall j | 0 <= j < |slots'| && slots'[j].Held? ensures RangeOf(slots'[j].bp, slots'[j].size) in rs' {
      if j == i {
        assert rs'[0] == r;
      } else {
        assert RangeOf(slots[j].bp, slots[j].size) in rs;
      }
    }
    forall k, l | 0 <= k < l < |rs'| ensures rs'[k].lo != rs'[l].lo {
      assert rs'[l] == rs[l - 1];
      if k > 0 {
        assert rs'[k] == rs[k - 1];
      }
    }
  }

  /** With distinct starting points, Without removes one range and keeps every other. */
  lemma {:induction false} WithoutMembers(rs: seq<Range>, lo: int)
    requires forall k, l | 0 <= k < l < |rs| :: rs[k].lo != rs[l].lo
    ensures forall r :: r in Without(rs, lo) <==> r in rs && r.lo != lo
    ensures forall k, l | 0 <= k < l < |Without(rs, lo)| :: Without(rs, lo)[k].lo != Without(rs, lo)[l].lo
  {
    if rs != [] {
      var rest := rs[1..];
      WithoutMembers(rest, lo);
      assert rs == [rs[0]] + rest;
      if rs[0].lo == lo {
        forall r ensures r in rest <==> r in rs && r.lo != lo {
          if r in rest {
            var k :| 0 <= k < |rest| && rest[k] == r;
            assert rs[k + 1] == r;
          }
        }
      } else {
        var w := Without(rest, lo);
        forall k, l | 0 <= k < l < |[rs[0]] + w| ensures ([rs[0]] + w)[k].lo != ([rs[0]] + w)[l].lo {
          if k == 0 {
            assert w[l - 1] in w;
            var j :| 0 <= j < |rest| && rest[j] == w[l - 1];
            assert rs[j + 1] == w[l - 1];
          } else {
            assert ([rs[0]] + w)[k] == w[k - 1] && ([rs[0]] + w)[l] == w[l - 1];
          }
        }
      }
    }
  }

  lemma RangesLost(rs: seq<Range>, slots: seq<Slot>, i: int)
    requires RangesMatch(rs, slots) && 0 <= i < |slots| && slots[i].Held?
    requires forall j, k | 0 <= j < k < |slots| && slots[j].Held? && slots[k].Held? :: slots[j].bp != slots[k].bp
    ensures RangesMatch(Without(rs, slots[i].bp), slots[i := Dead])
  {
    var lo, slots' := slots[i].bp, slots[i := Dead];
    var rs' := Without(rs, lo);
    WithoutMembers(rs, lo);
    forall k | 0 <= k < |rs'| ensures InSlots(rs'[k], slots') {
      assert rs'[k] in rs';
      var l :| 0 <= l < |rs| && rs[l] == rs'[k];
      assert InSlots(rs[l], slots);
      var j :| 0 <= j < |slots| && slots[j].Held? && rs[l] == RangeOf(slots[j].bp, slots[j].size);
      assert slots'[j] == slots[j];
    }
    forall j | 0 <= j < |slots'| && slots'[j].Held? ensures RangeOf(slots'[j].bp, slots'[j].size) in rs' {
      assert slots'[j] == slots[j];
      assert RangeOf(slots[j].bp, slots[j].size) in rs;
    }
  }

  /** add_range accepts the payload of a new live block: aligned, in the heap, clear of the others. */
  lemma NewRangeAccepted(bs: seq<Block>, slots: seq<Slot>, rs: seq<Range>, bp: int, size: int)
    requires AllGood(bs) && RangesMatch(rs, slots) && bp in LiveBlocks(bs)
    requires 0 < size && size + OVERHEAD <= LiveBlocks(bs)[bp]
    requires SlotsBeside(slots, LiveBlocks(bs), bp)
    ensures Acceptable(rs, bp, size, 0, HeapSize(bs) - 1)
  {
    AtBounds(bs, FIRST_BP, true, bp);
    forall k | 0 <= k < |rs| ensures !Touches(bp, bp + size - 1, rs[k]) {
      assert InSlots(rs[k], slots);
      var i :| 0 <= i < |slots| && slots[i].Held? && rs[k] == RangeOf(slots[i].bp, slots[i].size);
      var q := slots[i].bp;
      assert q in LiveBlocks(bs) && q != bp;
      if q < bp {
        AtApart(bs, FIRST_BP, true, true, q, bp);
      } else {
        AtApart(bs, FIRST_BP, true, true, bp, q);
      }
    }
  }
}
