/**
 mdriver.c: the trace interpreter that checks the allocator, and the one that measures its
 space utilization.
 */
module Driver {
  import opened Words
  import opened Blocks
  import opened Effects
  import opened Layout
  import opened ImplicitList
  import opened Traces
  import opened TraceTheorems
  import opened Ranges
  import opened DriverFacts

  /** How eval_mm_valid ends: returning 1, returning 0, or leaving the process. */
  datatype Result = Valid | Invalid | Exited

  predicate Agrees(r: Result, v: Verdict) {
    match v
    case Accepts(_) => r == Valid
    case Rejects => r == Invalid
    case Exits => r == Exited
  }

  /** The value of a byte read through a plain char, which is signed here. */
  function SignedChar(b: byte): int {
    if b >= 0x80 then b - 0x100 else b
  }

  class Driver {
    const mm: Allocator
    const ranges: RangeList
    /** trace->blocks and trace->block_sizes. */
    const blocks: array<int>
    const blockSizes: array<int>

    constructor (mm: Allocator, ids: nat)
      ensures this.mm == mm && fresh(ranges) && ranges.Valid() && ranges.nodes == []
      ensures blocks.Length == blockSizes.Length == ids && blocks != blockSizes && fresh(blocks) && fresh(blockSizes)
    {
      this.mm := mm;
      ranges := new RangeList();
      blocks := new int[ids];
      blockSizes := new int[ids];
    }

    ghost predicate ArraysMatch(slots: seq<Slot>)
      reads blocks, blockSizes
    {
      && blocks != blockSizes && blocks.Length == blockSizes.Length == |slots|
      && forall i | 0 <= i < |slots| && slots[i].Held? :: blocks[i] == slots[i].bp && blockSizes[i] == slots[i].size
    }

    /** The allocator and the two arrays are in state st. */
    ghost predicate Tracks(st: State)
      reads mm, mm.h, mm.h.mem, blocks, blockSizes
    {
      mm.Valid() && mm.blocks == st.blocks && Sound(st) && ArraysMatch(st.slots)
    }

    /** And so are the range list and the payload bytes. */
    ghost predicate Checked(st: State)
      reads mm, mm.h, mm.h.mem, blocks, blockSizes, ranges, ranges.nodes
    {
      && Tracks(st) && ranges.Valid()
      && RangesMatch(ranges.Contents(), st.slots)
      && Filled(mm.h.mem[..], st.slots)
    }

    /** The memset and the record that end an ALLOC or REALLOC request. */
    method Fill(id: int, p: int, size: int)
      requires blocks != blockSizes && 0 <= id < blocks.Length == blockSizes.Length
      requires 0 <= p && 0 <= size && p + size <= mm.h.mem.Length
      modifies mm.h.mem, blocks, blockSizes
      ensures FilledIn(old(mm.h.mem[..]), mm.h.mem[..], p, size, id)
      ensures blocks[..] == old(blocks[..])[id := p] && blockSizes[..] == old(blockSizes[..])[id := size]
    {
      mm.h.Memset(p, id % 0x100, size);
      blocks[id] := p;
      blockSizes[id] := size;
    }

    /** The range check, and what follows it when it passes. */
    method AddAndFill(id: int, p: int, size: int) returns (ok: bool)
      requires mm.h.Valid() && ranges.Valid() && size > 0
      requires blocks != blockSizes && 0 <= id < blocks.Length == blockSizes.Length
      modifies mm.h.mem, ranges, blocks, blockSizes
      ensures ok <==> Acceptable(old(ranges.Contents()), p, size, 0, mm.h.brk - 1)
      ensures ok ==> FilledIn(old(mm.h.mem[..]), mm.h.mem[..], p, size, id)
      ensures ok ==> blocks[..] == old(blocks[..])[id := p] && blockSizes[..] == old(blockSizes[..])[id := size]
      ensures ranges.Valid()
      ensures ranges.Contents() == if ok then [Range(p, p + size - 1)] + old(ranges.Contents()) else old(ranges.Contents())
      ensures forall n | n in ranges.nodes :: n in old(ranges.nodes) || fresh(n)
    {
      ok := ranges.AddRange(p, size, mm.h);
      if ok {
        Fill(id, p, size);
      }
    }

    /** A payload beside the others has been filled and recorded for the dead slot id. */
    lemma Recorded(m: seq<byte>, rs: seq<Range>, slots: seq<Slot>, id: int, p: int, size: int, oldBlocks: seq<int>, oldSizes: seq<int>)
      requires mm.h.Valid() && mm.heapListp == PROLOGUE && Represents(m, mm.h.brk, mm.blocks, true) && Canonical(mm.blocks)
      requires 0 <= id < |slots| && slots[id].Dead? && Addable(mm.blocks, slots, m, rs, p, size)
      requires FilledIn(m, mm.h.mem[..], p, size, id)
      requires blocks != blockSizes && blocks.Length == blockSizes.Length == |slots| == |oldBlocks| == |oldSizes|
      requires forall i | 0 <= i < |slots| && slots[i].Held? :: oldBlocks[i] == slots[i].bp && oldSizes[i] == slots[i].size
      requires blocks[..] == oldBlocks[id := p] && blockSizes[..] == oldSizes[id := size]
      ensures mm.Valid() && ArraysMatch(slots[id := Held(p, size)])
      ensures Filled(mm.h.mem[..], slots[id := Held(p, size)])
    {
      hide Represents, Sum, Canonical;
      var r := mm.h.mem[..];
      InHeap(m, mm.h.brk, mm.blocks, true);
      AtBounds(mm.blocks, FIRST_BP, true, p);
      PayloadWritten(m, r, mm.h.brk, mm.blocks, p, p, p + size, true);
      FilledKept(m, r, slots, LiveBlocks(mm.blocks) - {p});
      assert slots[id := Dead] == slots;
      FilledUpdate(r, slots, id, p, size);
      forall i | 0 <= i < |slots| ensures blocks[i] == oldBlocks[id := p][i] && blockSizes[i] == oldSizes[id := size][i] {
        assert blocks[i] == blocks[..][i] && blockSizes[i] == blockSizes[..][i];
      }
    }

    /** An ALLOC request of eval_mm_valid. */
    method CheckAlloc(id: int, size: int, ghost st: State) returns (r: Result)
      requires Checked(st) && Possible(st, Alloc(id, size))
      modifies mm.h.mem, mm.h`brk, mm.h`enomem, mm`blocks, ranges, blocks, blockSizes
      ensures Agrees(r, JudgeStep(st, Alloc(id, size)))
      ensures r == Valid ==> Checked(JudgeStep(st, Alloc(id, size)).st)
      ensures r != Exited && (r == Invalid <==> !Served(st, Alloc(id, size)))
      ensures r != Valid && size > 0 ==> mm.h.enomem
      ensures forall n | n in ranges.nodes :: n in old(ranges.nodes) || fresh(n)
    {
      hide Represents, Filled, SlotsOk, HeldSum, Allocate, RangesMatch, Addable, Served, Acceptable, FilledIn, HoldsOld;
      StepHeap(st, Alloc(id, size));
      ghost var m, rs := mm.h.mem[..], ranges.Contents();
      var p := mm.Malloc(size);
      if p == 0 {
        return Invalid;
      }
      AllocSound(st, id, size);
      AllocFacts(st, id, size, m, mm.h.mem[..], rs);
      InHeap(mm.h.mem[..], mm.h.brk, mm.blocks, true);
      ghost var m1, bps, sizes := mm.h.mem[..], blocks[..], blockSizes[..];
      AddableAcceptable(mm.blocks, st.slots, m1, rs, p, size);
      var ok := AddAndFill(id, p, size);
      Recorded(m1, rs, st.slots, id, p, size, bps, sizes);
      r := if ok then Valid else Invalid;
    }

    /** A FREE request of eval_mm_valid. */
    method CheckFree(id: int, ghost st: State)
      requires Checked(st) && Possible(st, Free(id))
      modifies mm.h.mem, mm`blocks, ranges, ranges.nodes
      ensures JudgeStep(st, Free(id)).Accepts? && Checked(JudgeStep(st, Free(id)).st)
      ensures forall n | n in ranges.nodes :: n in old(ranges.nodes)
    {
      hide Represents, Filled, SlotsOk, HeldSum, RangesMatch, Release;
      ghost var m, rs := mm.h.mem[..], ranges.Contents();
      SlotLive(st, id);
      var p := blocks[id];
      ranges.RemoveRange(p);
      mm.Free(p);
      FreeSound(st, id);
      FreeFacts(st, id, m, mm.h.mem[..], rs);
    }

    /** The check that a reallocated payload still holds its id: newp[j] against index & 0xFF. */
    method HoldsId(newp: int, n: int, id: int) returns (same: bool)
      requires 0 <= newp && 0 <= n && newp + n <= mm.h.mem.Length
      ensures same <==> forall a | newp <= a < newp + n :: SignedChar(mm.h.mem[a]) == id % 0x100
    {
      var j := 0;
      while j < n
        invariant 0 <= j <= n
        invariant forall a | newp <= a < newp + j :: SignedChar(mm.h.mem[a]) == id % 0x100
      {
        if SignedChar(mm.h.mem[newp + j]) != id % 0x100 {
          return false;
        }
        j := j + 1;
      }
      same := true;
    }

    /**
     The range check and the content check of a REALLOC request, and what follows them.  All
     bytes within both the new and the old size are compared, each as a signed char.
     */
    method AddAndCompare(id: int, newp: int, size: int) returns (ok: bool)
      requires mm.h.Valid() && ranges.Valid() && size > 0
      requires blocks != blockSizes && 0 <= id < blocks.Length == blockSizes.Length && blockSizes[id] >= 0
      modifies mm.h.mem, ranges, blocks, blockSizes
      ensures ok <==>
        && Acceptable(old(ranges.Contents()), newp, size, 0, mm.h.brk - 1)
        && forall a | newp <= a < newp + size && a < newp + old(blockSizes[id]) && 0 <= a < mm.h.mem.Length ::
             SignedChar(old(mm.h.mem[..])[a]) == id % 0x100
      ensures ok ==> FilledIn(old(mm.h.mem[..]), mm.h.mem[..], newp, size, id)
      ensures ok ==> blocks[..] == old(blocks[..])[id := newp] && blockSizes[..] == old(blockSizes[..])[id := size]
      ensures ranges.Valid()
      ensures ok ==> ranges.Contents() == [Range(newp, newp + size - 1)] + old(ranges.Contents())
      ensures forall n | n in ranges.nodes :: n in old(ranges.nodes) || fresh(n)
    {
      ghost var m := mm.h.mem[..];
      ok := ranges.AddRange(newp, size, mm.h);
      if ok {
        var n := blockSizes[id];
        if size < n {
          n := size;
        }
        ok := HoldsId(newp, n, id);
        if ok {
          Fill(id, newp, size);
        }
      }
    }

    /** A REALLOC request of eval_mm_valid. */
    method CheckRealloc(id: int, size: int, ghost st: State) returns (r: Result)
      requires Checked(st) && Possible(st, Realloc(id, size))
      modifies mm.h.mem, mm.h`brk, mm.h`enomem, mm`blocks, ranges, ranges.nodes, blocks, blockSizes
      ensures Agrees(r, JudgeStep(st, Realloc(id, size)))
      ensures r == Valid ==> Checked(JudgeStep(st, Realloc(id, size)).st)
      ensures r == Exited <==> !Served(st, Realloc(id, size))
      ensures r == Invalid <==> Served(st, Realloc(id, size)) && id % 0x100 >= 0x80
      ensures r != Valid && size > 0 && LowByteOk(Realloc(id, size)) ==> mm.h.enomem
      ensures forall n | n in ranges.nodes :: n in old(ranges.nodes) || fresh(n)
    {
      hide Represents, Filled, SlotsOk, HeldSum, Allocate, RangesMatch, Addable, Release, Served, Acceptable,
           FilledIn, HoldsOld, SignedChar, Canonical, LiveBlocks, SameBytes, KeepsBytes, Without, NeedsGrowth, Growth;
      StepHeap(st, Realloc(id, size));
      ghost var m, rs := mm.h.mem[..], ranges.Contents();
      SlotLive(st, id);
      var oldp := blocks[id];
      var newp := mm.Realloc(oldp, size);
      if newp == 0 {
        return Exited;
      }
      ReallocSound(st, id, size);
      ReallocFacts(st, id, size, m, mm.h.mem[..], rs);
      ranges.RemoveRange(oldp);
      InHeap(mm.h.mem[..], mm.h.brk, mm.blocks, true);
      ghost var slots := st.slots[id := Dead];
      ghost var m1, bps, sizes := mm.h.mem[..], blocks[..], blockSizes[..];
      ghost var left := ranges.Contents();
      AddableAcceptable(mm.blocks, slots, m1, left, newp, size);
      SignedAgree(m1, newp, size, st.slots[id].size, id);
      var ok := AddAndCompare(id, newp, size);
      if ok {
        Recorded(m1, left, slots, id, newp, size, bps, sizes);
      }
      assert slots[id := Held(newp, size)] == st.slots[id := Held(newp, size)];
      r := if ok then Valid else Invalid;
    }

    /** The switch of eval_mm_valid. */
    method CheckOp(op: Op, ghost st: State) returns (r: Result)
      requires Checked(st) && Possible(st, op)
      modifies mm.h.mem, mm.h`brk, mm.h`enomem, mm`blocks, ranges, ranges.nodes, blocks, blockSizes
      ensures Agrees(r, JudgeStep(st, op))
      ensures r == Valid ==> Checked(JudgeStep(st, op).st)
      ensures r == Valid <==> Served(st, op) && (op.Realloc? ==> op.id % 0x100 < 0x80)
      ensures r == Exited <==> op.Realloc? && !Served(st, op)
      ensures r == Invalid <==> if Served(st, op) then op.Realloc? && op.id % 0x100 >= 0x80 else op.Alloc?
      ensures r != Valid ==> mm.h.enomem || (!op.Free? && op.size <= 0) || !LowByteOk(op)
      ensures forall n | n in ranges.nodes :: n in old(ranges.nodes) || fresh(n)
    {
      hide Checked, JudgeStep;
      match op {
        case Alloc(id, size) => r := CheckAlloc(id, size, st);
        case Realloc(id, size) => r := CheckRealloc(id, size, st);
        case Free(id) => CheckFree(id, st); r := Valid;
      }
    }

    /**
     eval_mm_valid.  It returns 1 when it gets through all requests, and `at` is the request it
     stops at otherwise: one that is not served, or that reallocates an id whose low byte is
     128 or more.  A REALLOC that is not served leaves the process; any other stop returns 0.
     */
    method EvalMmValid(ops: seq<Op>) returns (r: Result, ghost at: int)
      requires mm.h.Valid() && ranges.Valid() && blocks != blockSizes && blocks.Length == blockSizes.Length
      requires WellFormed(blocks.Length, ops)
      modifies mm, mm.h, mm.h.mem, ranges, blocks, blockSizes
      ensures 0 <= at <= |ops| && (r == Valid <==> at == |ops|)
      ensures forall j | 0 <= j < at :: ServedAt(blocks.Length, ops, j) && (ops[j].Realloc? ==> ops[j].id % 0x100 < 0x80)
      ensures r == Exited <==> at < |ops| && ops[at].Realloc? && !ServedAt(blocks.Length, ops, at)
      ensures r == Invalid <==>
        && at < |ops|
        && (if ServedAt(blocks.Length, ops, at) then ops[at].Realloc? && ops[at].id % 0x100 >= 0x80 else ops[at].Alloc?)
      ensures r == Valid ==> forall id | 0 <= id < blocks.Length && LiveSizes(blocks.Length, ops)[id].Some? ::
        && blockSizes[id] == LiveSizes(blocks.Length, ops)[id].value && blocks[id] in LiveBlocks(mm.blocks)
        && Range(blocks[id], blocks[id] + blockSizes[id] - 1) in ranges.Contents()
        && forall a | 0 <= a < mm.h.mem.Length && blocks[id] <= a < blocks[id] + blockSizes[id] :: mm.h.mem[a] == id % 0x100
      ensures Agrees(r, Judge(blocks.Length, ops))
      ensures r == Valid <==> Run(blocks.Length, ops).Some? && AllLowBytes(ops)
      ensures r == Valid ==> Checked(Run(blocks.Length, ops).value)
      ensures Affordable(ops) && AllLowBytes(ops) ==> r == Valid
      ensures !mm.h.enomem && (forall k | 0 <= k < |ops| :: (!ops[k].Free? ==> ops[k].size > 0) && LowByteOk(ops[k])) ==> r == Valid
    {
      hide Checked, JudgeStep, Judge, WellFormed, Represents, Run, AllLowBytes, Affordable, ServedAt, Served, LiveSizes;
      AcceptsExactly(blocks.Length, ops);
      if Affordable(ops) {
        AffordableRuns(blocks.Length, ops);
      }
      mm.h.ResetBrk();
      ranges.ClearRanges();
      var status := mm.Init();
      at := 0;
      if status < 0 {
        return Invalid, 0;
      }
      ghost var st := Start(blocks.Length);
      StartChecked();
      var i := 0;
      assert ops[..i] == [];
      while i < |ops|
        invariant 0 <= i <= |ops|
        invariant Judge(blocks.Length, ops[..i]) == Accepts(st) && Checked(st)
        invariant forall j | 0 <= j < i :: ServedAt(blocks.Length, ops, j) && (ops[j].Realloc? ==> ops[j].id % 0x100 < 0x80)
        invariant forall n | n in ranges.nodes :: fresh(n)
      {
        NextOp(blocks.Length, ops, i, st);
        assert forall k | 0 <= k < |ranges.nodes| :: ranges.nodes[k] in ranges.nodes;
        r := CheckOp(ops[i], st);
        at := i;
        if r != Valid {
          JudgeStuck(blocks.Length, ops, i + 1);
          return;
        }
        st := JudgeStep(st, ops[i]).st;
        i := i + 1;
      }
      assert ops[..i] == ops;
      r, at := Valid, i;
      CheckedMeaning(ops, st);
    }

    /** What the driver has recorded of every live id. */
    lemma CheckedMeaning(ops: seq<Op>, st: State)
      requires Run(blocks.Length, ops) == Some(st) && Checked(st) && blocks.Length == blockSizes.Length
      ensures forall id | 0 <= id < blocks.Length && LiveSizes(blocks.Length, ops)[id].Some? ::
        && blockSizes[id] == LiveSizes(blocks.Length, ops)[id].value && blocks[id] in LiveBlocks(mm.blocks)
        && Range(blocks[id], blocks[id] + blockSizes[id] - 1) in ranges.Contents()
        && forall a | 0 <= a < mm.h.mem.Length && blocks[id] <= a < blocks[id] + blockSizes[id] :: mm.h.mem[a] == id % 0x100
    {
      hide Checked, Run, LiveSizes, LiveBlocks;
      RunMatches(blocks.Length, ops);
      forall id | 0 <= id < blocks.Length && LiveSizes(blocks.Length, ops)[id].Some?
        ensures blockSizes[id] == LiveSizes(blocks.Length, ops)[id].value && blocks[id] in LiveBlocks(mm.blocks)
        ensures Range(blocks[id], blocks[id] + blockSizes[id] - 1) in ranges.Contents()
        ensures forall a | 0 <= a < mm.h.mem.Length && blocks[id] <= a < blocks[id] + blockSizes[id] :: mm.h.mem[a] == id % 0x100
      {
        SlotRecorded(st, id);
      }
    }

    lemma SlotRecorded(st: State, id: int)
      requires Checked(st) && 0 <= id < |st.slots| && st.slots[id].Held?
      ensures blocks.Length == blockSizes.Length == |st.slots| && mm.blocks == st.blocks
      ensures blocks[id] == st.slots[id].bp && blockSizes[id] == st.slots[id].size && blocks[id] in LiveBlocks(mm.blocks)
      ensures Range(blocks[id], blocks[id] + blockSizes[id] - 1) in ranges.Contents()
      ensures forall a | 0 <= a < mm.h.mem.Length && blocks[id] <= a < blocks[id] + blockSizes[id] :: mm.h.mem[a] == id % 0x100
    {
      hide Represents, LiveBlocks, HeldSum, Canonical, SlotsOk;
      SlotLive(st, id);
      assert RangeOf(st.slots[id].bp, st.slots[id].size) in ranges.Contents();
      assert FilledSlot(mm.h.mem[..], st.slots[id], id);
    }

    /** Once eval_mm_valid has accepted a trace, mm_checkheap has nothing to report. */
    method CheckAfterRun(ops: seq<Op>) returns (r: Result, errors: int, listed: seq<int>)
      requires mm.h.Valid() && ranges.Valid() && blocks != blockSizes && blocks.Length == blockSizes.Length
      requires WellFormed(blocks.Length, ops)
      modifies mm, mm.h, mm.h.mem, ranges, blocks, blockSizes
      ensures r == Valid <==> Run(blocks.Length, ops).Some? && AllLowBytes(ops)
      ensures r == Valid ==> errors == 0 && var bs := Run(blocks.Length, ops).value.blocks; listed == Addresses(bs, |bs| + 2)
    {
      hide Represents, Run, AllLowBytes, WellFormed, Filled, RangesMatch, SlotsOk;
      errors, listed := 0, [];
      ghost var at;
      r, at := EvalMmValid(ops);
      if r == Valid {
        errors, listed := mm.CheckReachable(true);
      }
    }

    /** The switch of eval_mm_util: the change of total_size, or an exit. */
    method UtilOp(op: Op, ghost st: State) returns (exited: bool, delta: int)
      requires Tracks(st) && Possible(st, op)
      modifies mm.h.mem, mm.h`brk, mm.h`enomem, mm`blocks, blocks, blockSizes
      ensures exited <==> Step(st, op).None?
      ensures !exited ==> Tracks(Step(st, op).value)
      ensures delta == (if op.Alloc? then 0 else -st.slots[op.id].size) + (if op.Free? then 0 else op.size)
    {
      hide Represents, SlotsOk, HeldSum, Allocate, Release, Sum, SumAlloc;
      exited, delta := false, 0;
      match op {
        case Alloc(id, size) =>
          var p := mm.Malloc(size);
          exited, delta := p == 0, size;
          if !exited {
            AllocSound(st, id, size);
            blocks[id] := p;
            blockSizes[id] := size;
          }
        case Realloc(id, size) =>
          SlotLive(st, id);
          var oldSize := blockSizes[id];
          var newp := mm.Realloc(blocks[id], size);
          exited, delta := newp == 0, size - oldSize;
          if !exited {
            ReallocSound(st, id, size);
            blocks[id] := newp;
            blockSizes[id] := size;
          }
        case Free(id) =>
          SlotLive(st, id);
          delta := -blockSizes[id];
          FreeSound(st, id);
          mm.Free(blocks[id]);
      }
    }

    /** eval_mm_util: the ratio of the peak of the live requests to the final heap size. */
    method EvalMmUtil(ops: seq<Op>) returns (exited: bool, util: real)
      requires mm.h.Valid() && blocks != blockSizes && blocks.Length == blockSizes.Length
      requires WellFormed(blocks.Length, ops)
      modifies mm, mm.h, mm.h.mem, blocks, blockSizes
      ensures exited <==> Run(blocks.Length, ops).None?
      ensures !exited ==>
        && Tracks(Run(blocks.Length, ops).value)
        && util == Peak(blocks.Length, ops) as real / Blocks.HeapSize(Run(blocks.Length, ops).value.blocks) as real
        && 0.0 <= util < 1.0
    {
      hide Tracks, Run, WellFormed, Peak, LiveSizes;
      mm.h.ResetBrk();
      var status := mm.Init();
      exited, util := true, 0.0;
      if status < 0 {
        return;
      }
      ghost var ids := blocks.Length;
      ghost var st := Start(ids);
      StartTracked();
      var total, maxTotal := 0, 0;
      var i := 0;
      assert ops[..i] == [];
      while i < |ops|
        invariant 0 <= i <= |ops|
        invariant Run(ids, ops[..i]) == Some(st) && Tracks(st)
        invariant total == RequestSum(st.slots) && maxTotal == Peak(ids, ops[..i])
      {
        NextRun(ids, ops, i, st);
        var stop, delta := UtilOp(ops[i], st);
        if stop {
          RunStuck(ids, ops, i + 1);
          return;
        }
        st := Step(st, ops[i]).value;
        total := total + delta;
        if !ops[i].Free? {
          maxTotal := if total > maxTotal then total else maxTotal;
        }
        i := i + 1;
      }
      assert ops[..i] == ops;
      UtilizationBound(ids, ops);
      HeapGrowthBound(ids, ops);
      BreakIsHeapSize(st);
      exited := false;
      util := maxTotal as real / mm.h.HeapSize() as real;
      RatioBelowOne(maxTotal, mm.h.HeapSize());
    }

    lemma StartTracked()
      requires mm.Valid() && mm.blocks == [Block(CHUNKSIZE, false)]
      requires blocks != blockSizes && blocks.Length == blockSizes.Length
      ensures var st := Start(blocks.Length);
        && Run(blocks.Length, []) == Some(st) && Tracks(st)
        && RequestSum(st.slots) == 0 == Peak(blocks.Length, [])
    {
      StartSound(blocks.Length);
      NothingRequested(blocks.Length);
    }

    lemma BreakIsHeapSize(st: State)
      requires Tracks(st)
      ensures mm.h.brk == Blocks.HeapSize(st.blocks)
    {
    }

    /** What mm_init and an empty range list establish. */
    lemma StartChecked()
      requires mm.Valid() && mm.blocks == [Block(CHUNKSIZE, false)] && ranges.Valid() && ranges.nodes == []
      requires blocks != blockSizes && blocks.Length == blockSizes.Length
      ensures Judge(blocks.Length, []) == Accepts(Start(blocks.Length)) && Checked(Start(blocks.Length))
    {
      StartSound(blocks.Length);
    }
  }

  /** The next operation of a well-formed trace is possible, and judged by JudgeStep. */
  lemma NextOp(ids: nat, ops: seq<Op>, i: int, st: State)
    requires WellFormed(ids, ops) && 0 <= i < |ops| && Judge(ids, ops[..i]) == Accepts(st)
    ensures Possible(st, ops[i]) && Judge(ids, ops[..i + 1]) == JudgeStep(st, ops[i])
    ensures ServedAt(ids, ops, i) <==> Served(st, ops[i])
  {
    WellFormedPrefix(ids, ops, i + 1);
    assert ops[..i + 1][..i] == ops[..i];
    AcceptsExactly(ids, ops[..i]);
    AllowedIsPossible(ids, ops[..i], ops[i]);
  }

  /** The comparison of a correctly copied payload, byte by byte as signed chars, succeeds exactly below 128. */
  lemma SignedAgree(m: seq<byte>, p: int, size: int, oldSize: int, id: int)
    requires HoldsOld(m, p, size, oldSize, id)
    ensures (forall a | p <= a < p + size && a < p + oldSize && 0 <= a < |m| :: SignedChar(m[a]) == id % 0x100) <==>
            id % 0x100 < 0x80
  {
    assert m[p] == id % 0x100;
  }

  lemma RatioBelowOne(x: int, y: int)
    requires 0 <= x < y
    ensures 0.0 <= x as real / y as real < 1.0
  {
    assert x as real / y as real * y as real == x as real;
  }

  lemma {:induction false} NothingRequested(ids: nat)
    ensures RequestSum(Start(ids).slots) == 0
  {
    if ids > 0 {
      assert Start(ids).slots[1..] == Start(ids - 1).slots;
      NothingRequested(ids - 1);
    }
  }

  lemma {:induction false} RequestSumUpdate(slots: seq<Slot>, i: int, s: Slot)
    requires 0 <= i < |slots|
    ensures RequestSum(slots[i := s]) ==
            RequestSum(slots) - (if slots[i].Held? then slots[i].size else 0) + (if s.Held? then s.size else 0)
  {
    if i > 0 {
      RequestSumUpdate(slots[1..], i - 1, s);
      assert slots[i := s][1..] == slots[1..][i - 1 := s];
    }
  }

  /** The next operation of a running trace: its step, the running total and the running maximum. */
  lemma NextRun(ids: nat, ops: seq<Op>, i: int, st: State)
    requires WellFormed(ids, ops) && 0 <= i < |ops| && Run(ids, ops[..i]) == Some(st)
    ensures Possible(st, ops[i]) && Run(ids, ops[..i + 1]) == Step(st, ops[i])
    ensures Step(st, ops[i]).Some? ==>
      var next, op := Step(st, ops[i]).value, ops[i];
      && RequestSum(next.slots) == RequestSum(st.slots)
           + (if op.Alloc? then 0 else -st.slots[op.id].size) + (if op.Free? then 0 else op.size)
      && Peak(ids, ops[..i + 1]) ==
           if op.Free? then Peak(ids, ops[..i]) else Max(RequestSum(next.slots), Peak(ids, ops[..i]))
  {
    WellFormedPrefix(ids, ops, i + 1);
    assert ops[..i + 1][..i] == ops[..i];
    AllowedIsPossible(ids, ops[..i], ops[i]);
    if Step(st, ops[i]).Some? {
      var next, id := Step(st, ops[i]).value, ops[i].id;
      RequestSumUpdate(st.slots, id, next.slots[id]);
      RunMatches(ids, ops[..i + 1]);
      TotalIsRequestSum(next.slots, LiveSizes(ids, ops[..i + 1]));
      RunMatches(ids, ops[..i]);
      TotalIsRequestSum(st.slots, LiveSizes(ids, ops[..i]));
      if ops[i].Free? {
        RunSound(ids, ops[..i]);
        SlotLive(st, id);
        TotalBelowPeak(ids, ops[..i]);
      }
    }
  }

  lemma TotalBelowPeak(ids: nat, ops: seq<Op>)
    ensures Total(LiveSizes(ids, ops)) <= Peak(ids, ops)
  {
    var at := PeakIsMaximum(ids, ops);
    assert ops[..|ops|] == ops;
  }

  lemma {:induction false} RunStuck(ids: nat, ops: seq<Op>, i: int)
    requires 0 <= i <= |ops| && Run(ids, ops[..i]).None?
    ensures Run(ids, ops).None?
  {
    if i == |ops| {
      assert ops[..i] == ops;
    } else {
      assert ops[..|ops| - 1][..i] == ops[..i];
      RunStuck(ids, ops[..|ops| - 1], i);
    }
  }

  lemma {:induction false} WellFormedPrefix(ids: nat, ops: seq<Op>, i: int)
    requires WellFormed(ids, ops) && 0 <= i <= |ops|
    ensures WellFormed(ids, ops[..i])
  {
    if i == |ops| {
      assert ops[..i] == ops;
    } else {
      WellFormedPrefix(ids, ops[..|ops| - 1], i);
      assert ops[..|ops| - 1][..i] == ops[..i];
    }
  }

  /** A verdict other than acceptance is final. */
  lemma {:induction false} JudgeStuck(ids: nat, ops: seq<Op>, i: int)
    requires 0 <= i <= |ops| && !Judge(ids, ops[..i]).Accepts?
    ensures Judge(ids, ops) == Judge(ids, ops[..i])
  {
    if i == |ops| {
      assert ops[..i] == ops;
    } else {
      assert ops[..|ops| - 1][..i] == ops[..i];
      JudgeStuck(ids, ops[..|ops| - 1], i);
    }
  }
}
