/**
 Traces of allocator requests, and what running one on the first-fit allocator does.
 LiveSizes, Total, Peak and WellFormed speak of the trace alone; Run adds the heap.
 */
module Traces {
  import opened Blocks
  import opened Effects

  datatype Op = Alloc(id: int, size: int) | Realloc(id: int, size: int) | Free(id: int)

  datatype Option<T> = None | Some(value: T)

  /** What the driver remembers of an id: nothing, or its pointer and requested size. */
  datatype Slot = Dead | Held(bp: int, size: int)

  datatype State = State(blocks: seq<Block>, slots: seq<Slot>)

  /** Sizes are ints in the driver. */
  const INT_LIMIT := 0x8000_0000

  // ------------------------------------------------------------------ the trace alone

  function NoneLive(ids: nat): seq<Option<int>> {
    seq(ids, _ => None)
  }

  /** The requested size of every live id after the operations, None for the others. */
  function LiveSizes(ids: nat, ops: seq<Op>): (r: seq<Option<int>>)
    ensures |r| == ids
  {
    if ops == [] then NoneLive(ids)
    else
      var sizes, op := LiveSizes(ids, ops[..|ops| - 1]), ops[|ops| - 1];
      if !(0 <= op.id < ids) then sizes
      else sizes[op.id := if op.Free? then None else Some(op.size)]
  }

  /** An id is allocated when dead, and reallocated or freed when live. */
  predicate Allowed(sizes: seq<Option<int>>, op: Op) {
    && 0 <= op.id < |sizes|
    && (if op.Alloc? then sizes[op.id].None? else sizes[op.id].Some?)
    && (!op.Free? ==> 0 <= op.size < INT_LIMIT)
  }

  predicate WellFormed(ids: nat, ops: seq<Op>) {
    ops == [] ||
    (WellFormed(ids, ops[..|ops| - 1]) && Allowed(LiveSizes(ids, ops[..|ops| - 1]), ops[|ops| - 1]))
  }

  /** Total live requested bytes. */
  function Total(sizes: seq<Option<int>>): int {
    if sizes == [] then 0 else (if sizes[0].Some? then sizes[0].value else 0) + Total(sizes[1..])
  }

  /** The largest total over all prefixes. */
  function Peak(ids: nat, ops: seq<Op>): int {
    if ops == [] then 0 else Max(Total(LiveSizes(ids, ops)), Peak(ids, ops[..|ops| - 1]))
  }

  /** The most the heap can have to grow for the operations. */
  function GrowthSum(ops: seq<Op>): int {
    if ops == [] then 0
    else GrowthSum(ops[..|ops| - 1]) + var op := ops[|ops| - 1]; if op.Free? then 0 else Growth(op.size)
  }

  // ------------------------------------------------------------------ the run

  function Start(ids: nat): State {
    State([Block(CHUNKSIZE, false)], seq(ids, _ => Dead))
  }

  predicate Possible(st: State, op: Op) {
    && 0 <= op.id < |st.slots|
    && (if op.Alloc? then st.slots[op.id].Dead? else st.slots[op.id].Held?)
    && (!op.Free? ==> 0 <= op.size < INT_LIMIT)
  }

  /** One operation; None when mm_malloc returns NULL in it. */
  function Step(st: State, op: Op): Option<State>
    requires Possible(st, op)
  {
    match op
    case Free(id) => Some(State(Release(st.blocks, st.slots[id].bp), st.slots[id := Dead]))
    case Alloc(id, size) =>
      var a := Allocate(st.blocks, size);
      if size == 0 || a.bp == 0 then None else Some(State(a.blocks, st.slots[id := Held(a.bp, size)]))
    case Realloc(id, size) =>
      var a := Allocate(st.blocks, size);
      if size == 0 || a.bp == 0 then None
      else Some(State(Release(a.blocks, st.slots[id].bp), st.slots[id := Held(a.bp, size)]))
  }

  function Run(ids: nat, ops: seq<Op>): Option<State> {
    if ops == [] then Some(Start(ids))
    else match Run(ids, ops[..|ops| - 1])
      case None => None
      case Some(st) => if Possible(st, ops[|ops| - 1]) then Step(st, ops[|ops| - 1]) else None
  }

  /** What eval_mm_valid makes of a trace: it may also leave the process inside mm_realloc. */
  datatype Verdict = Accepts(st: State) | Rejects | Exits

  /** The low byte of an id survives a comparison as a signed char. */
  predicate LowByteOk(op: Op) {
    op.Realloc? ==> op.id % 0x100 < 0x80
  }

  function JudgeStep(st: State, op: Op): Verdict {
    if !Possible(st, op) then Rejects
    else match Step(st, op)
      case None => if op.Alloc? then Rejects else Exits
      case Some(next) => if LowByteOk(op) then Accepts(next) else Rejects
  }

  function Judge(ids: nat, ops: seq<Op>): Verdict {
    if ops == [] then Accepts(Start(ids))
    else match Judge(ids, ops[..|ops| - 1])
      case Accepts(st) => JudgeStep(st, ops[|ops| - 1])
      case v => v
  }

  // ------------------------------------------------------------------ invariant of a run

  /** Total size of the blocks the slots hold. */
  function HeldSum(slots: seq<Slot>, live: map<int, int>): int {
    if slots == [] then 0
    else (if slots[0].Held? && slots[0].bp in live then live[slots[0].bp] else 0) + HeldSum(slots[1..], live)
  }

  /** Total requested size the slots hold. */
  function RequestSum(slots: seq<Slot>): int {
    if slots == [] then 0 else (if slots[0].Held? then slots[0].size else 0) + RequestSum(slots[1..])
  }

  /** A held slot names a live block with room for the request, and little more. */
  predicate SlotOk(s: Slot, live: map<int, int>) {
    s.Held? ==> 0 < s.size && s.bp in live && s.size + OVERHEAD <= live[s.bp] <= s.size + 23
  }

  ghost predicate SlotsOk(slots: seq<Slot>, live: map<int, int>) {
    && (forall i | 0 <= i < |slots| :: SlotOk(slots[i], live))
    && (forall i, j | 0 <= i < j < |slots| && slots[i].Held? && slots[j].Held? :: slots[i].bp != slots[j].bp)
    && (forall q | q in live :: HeldBy(slots, q))
  }

  ghost predicate HeldBy(slots: seq<Slot>, q: int) {
    exists i :: 0 <= i < |slots| && slots[i].Held? && slots[i].bp == q
  }

  /** What holds after every run: the live blocks are exactly the held slots' blocks. */
  ghost predicate Sound(st: State) {
    && Canonical(st.blocks) && HeapSize(st.blocks) <= MAX_HEAP
    && SlotsOk(st.slots, LiveBlocks(st.blocks))
    && HeldSum(st.slots, LiveBlocks(st.blocks)) == SumAlloc(st.blocks)
  }

  lemma {:induction false} HeldSumUpdate(slots: seq<Slot>, i: int, s: Slot, live: map<int, int>)
    requires 0 <= i < |slots|
    ensures var x, y := slots[i], s;
      HeldSum(slots[i := s], live) == HeldSum(slots, live)
        - (if x.Held? && x.bp in live then live[x.bp] else 0) + (if y.Held? && y.bp in live then live[y.bp] else 0)
  {
    if i > 0 {
      HeldSumUpdate(slots[1..], i - 1, s, live);
      assert slots[i := s][1..] == slots[1..][i - 1 := s];
    }
  }

  lemma {:induction false} HeldSumSame(slots: seq<Slot>, live: map<int, int>, more: map<int, int>)
    requires forall i | 0 <= i < |slots| && slots[i].Held? ::
      (slots[i].bp in live <==> slots[i].bp in more) && (slots[i].bp in live ==> live[slots[i].bp] == more[slots[i].bp])
    ensures HeldSum(slots, live) == HeldSum(slots, more)
  {
    if slots != [] {
      HeldSumSame(slots[1..], live, more);
    }
  }

  lemma {:induction false} HeldSumNone(ids: nat, live: map<int, int>)
    ensures HeldSum(seq(ids, _ => Dead), live) == 0
  {
    if ids > 0 {
      assert seq(ids, _ => Dead)[1..] == seq(ids - 1, _ => Dead);
      HeldSumNone(ids - 1, live);
    }
  }

  /** A new live block for a dead slot. */
  lemma SlotGained(slots: seq<Slot>, live: map<int, int>, i: int, q: int, z: int, size: int)
    requires SlotsOk(slots, live) && 0 <= i < |slots| && slots[i].Dead?
    requires q !in live && 0 < size && size + OVERHEAD <= z <= size + 23
    ensures var more, slots' := live[q := z], slots[i := Held(q, size)];
      SlotsOk(slots', more) && HeldSum(slots', more) == HeldSum(slots, live) + z
  {
    var more, slots' := live[q := z], slots[i := Held(q, size)];
    HeldSumUpdate(slots, i, Held(q, size), more);
    HeldSumSame(slots, live, more);
    forall p | p in more ensures HeldBy(slots', p) {
      if p == q {
        assert slots'[i].Held? && slots'[i].bp == q;
      } else {
        assert HeldBy(slots, p);
        var k :| 0 <= k < |slots| && slots[k].Held? && slots[k].bp == p;
        assert slots'[k] == slots[k];
      }
    }
  }

  /** A slot whose block is no longer live. */
  lemma SlotLost(slots: seq<Slot>, live: map<int, int>, i: int)
    requires SlotsOk(slots, live) && 0 <= i < |slots| && slots[i].Held?
    ensures var less, slots' := live - {slots[i].bp}, slots[i := Dead];
      SlotsOk(slots', less) && HeldSum(slots', less) == HeldSum(slots, live) - live[slots[i].bp]
  {
    var q := slots[i].bp;
    var less, slots' := live - {q}, slots[i := Dead];
    assert SlotOk(slots[i], live);
    HeldSumUpdate(slots, i, Dead, live);
    forall j | 0 <= j < |slots'| && slots'[j].Held? ensures slots'[j].bp in live && slots'[j].bp != q && SlotOk(slots'[j], less) {
      assert SlotOk(slots[j], live);
    }
    HeldSumSame(slots', live, less);
    forall p | p in less ensures HeldBy(slots', p) {
      assert HeldBy(slots, p);
      var k :| 0 <= k < |slots| && slots[k].Held? && slots[k].bp == p;
      assert slots'[k] == slots[k];
    }
  }

  lemma SlotLive(st: State, id: int)
    requires Sound(st) && 0 <= id < |st.slots| && st.slots[id].Held?
    ensures var s, live := st.slots[id], LiveBlocks(st.blocks);
      0 < s.size && s.bp in live && s.size + OVERHEAD <= live[s.bp] <= s.size + 23
  {
    assert SlotOk(st.slots[id], LiveBlocks(st.blocks));
  }

  lemma StartSound(ids: nat)
    ensures Sound(Start(ids))
  {
    AtOne(Block(CHUNKSIZE, false), FIRST_BP, true);
    HeldSumNone(ids, map[]);
  }

  lemma FreeSound(st: State, id: int)
    requires Sound(st) && 0 <= id < |st.slots| && st.slots[id].Held?
    ensures Sound(State(Release(st.blocks, st.slots[id].bp), st.slots[id := Dead]))
  {
    assert SlotOk(st.slots[id], LiveBlocks(st.blocks));
    ReleaseEffect(st.blocks, st.slots[id].bp);
    SlotLost(st.slots, LiveBlocks(st.blocks), id);
  }

  lemma AllocSound(st: State, id: int, size: int)
    requires Sound(st) && 0 <= id < |st.slots| && st.slots[id].Dead? && 0 < size < INT_LIMIT
    requires Allocate(st.blocks, size).bp != 0
    ensures var a := Allocate(st.blocks, size);
      Sound(State(a.blocks, st.slots[id := Held(a.bp, size)]))
  {
    var a := Allocate(st.blocks, size);
    AllocateEffect(st.blocks, size);
    SlotGained(st.slots, LiveBlocks(st.blocks), id, a.bp, LiveBlocks(a.blocks)[a.bp], size);
  }

  /** mm_realloc is a malloc under a fresh name, then a free of the old name. */
  lemma ReallocSound(st: State, id: int, size: int)
    requires Sound(st) && 0 <= id < |st.slots| && st.slots[id].Held? && 0 < size < INT_LIMIT
    requires Allocate(st.blocks, size).bp != 0
    ensures var a := Allocate(st.blocks, size);
      && st.slots[id].bp in LiveBlocks(a.blocks) && a.bp != st.slots[id].bp
      && Sound(State(Release(a.blocks, st.slots[id].bp), st.slots[id := Held(a.bp, size)]))
  {
    hide SlotsOk, HeldSum, LiveBlocks, Sum, SumAlloc, Allocate, Release, NeedsGrowth, Growth;
    var a, q := Allocate(st.blocks, size), st.slots[id].bp;
    SlotLive(st, id);
    AllocateEffect(st.blocks, size);
    ReleaseEffect(a.blocks, q);
    var z := LiveBlocks(a.blocks)[a.bp];
    SlotLost(st.slots, LiveBlocks(st.blocks), id);
    var less := st.slots[id := Dead];
    SlotGained(less, LiveBlocks(st.blocks) - {q}, id, a.bp, z, size);
    assert less[id := Held(a.bp, size)] == st.slots[id := Held(a.bp, size)];
    assert (LiveBlocks(st.blocks) - {q})[a.bp := z] == LiveBlocks(st.blocks)[a.bp := z] - {q};
  }

  lemma StepSound(st: State, op: Op)
    requires Sound(st) && Possible(st, op) && Step(st, op).Some?
    ensures Sound(Step(st, op).value)
  {
    match op
    case Free(id) => FreeSound(st, id);
    case Alloc(id, size) => AllocSound(st, id, size);
    case Realloc(id, size) => ReallocSound(st, id, size);
  }

  /** The invariant after every run. */
  lemma {:induction false} RunSound(ids: nat, ops: seq<Op>)
    requires Run(ids, ops).Some?
    ensures Sound(Run(ids, ops).value)
  {
    if ops == [] {
      StartSound(ids);
    } else {
      var before, op := ops[..|ops| - 1], ops[|ops| - 1];
      RunSound(ids, before);
      StepSound(Run(ids, before).value, op);
    }
  }
}
