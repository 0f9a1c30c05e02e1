/**
 What holds of every run of a well-formed trace: the heap bounds the live requests, it grows
 no more than the trace can ask for, and the driver's checks fire only for a stated reason.
 */
module TraceTheorems {
  import opened Blocks
  import opened Effects
  import opened Traces

  // ------------------------------------------------------------------ trace and run agree

  ghost predicate SlotsMatch(slots: seq<Slot>, sizes: seq<Option<int>>) {
    && |slots| == |sizes|
    && forall i | 0 <= i < |slots| ::
         (slots[i].Held? <==> sizes[i].Some?) && (slots[i].Held? ==> slots[i].size == sizes[i].value)
  }

  lemma {:induction false} RunMatches(ids: nat, ops: seq<Op>)
    requires Run(ids, ops).Some?
    ensures SlotsMatch(Run(ids, ops).value.slots, LiveSizes(ids, ops))
  {
    if ops != [] {
      RunMatches(ids, ops[..|ops| - 1]);
    }
  }

  /** The trace's own notion of liveness is the run's. */
  lemma AllowedIsPossible(ids: nat, ops: seq<Op>, op: Op)
    requires Run(ids, ops).Some?
    ensures Allowed(LiveSizes(ids, ops), op) <==> Possible(Run(ids, ops).value, op)
  {
    RunMatches(ids, ops);
  }

  // ------------------------------------------------------------------ what is served

  /** The request is for something, and it fits or the heap may grow for it. */
  ghost predicate Served(st: State, op: Op) {
    op.Free? || (op.size > 0 && (NeedsGrowth(st.blocks, op.size) ==> HeapSize(st.blocks) + Growth(op.size) <= MAX_HEAP))
  }

  /** One step: it succeeds exactly when served, and grows the heap by at most the growth amount. */
  lemma StepHeap(st: State, op: Op)
    requires Sound(st) && Possible(st, op)
    ensures Step(st, op).Some? <==> Served(st, op)
    ensures Step(st, op).Some? ==>
              HeapSize(st.blocks) <= HeapSize(Step(st, op).value.blocks)
              <= HeapSize(st.blocks) + if op.Free? then 0 else Growth(op.size)
  {
    hide Allocate, Release, LiveBlocks, SumAlloc;
    if !op.Free? && op.size > 0 {
      AllocateEffect(st.blocks, op.size);
    }
    if !op.Alloc? {
      SlotLive(st, op.id);
      if op.Free? {
        ReleaseEffect(st.blocks, st.slots[op.id].bp);
      } else if op.size > 0 && Allocate(st.blocks, op.size).bp != 0 {
        ReallocSound(st, op.id, op.size);
        ReleaseEffect(Allocate(st.blocks, op.size).blocks, st.slots[op.id].bp);
      }
    }
  }

  ghost predicate ServedAt(ids: nat, ops: seq<Op>, k: int)
    requires 0 <= k < |ops|
  {
    Run(ids, ops[..k]).Some? && Served(Run(ids, ops[..k]).value, ops[k])
  }

  lemma LastServed(ids: nat, ops: seq<Op>)
    requires WellFormed(ids, ops) && ops != []
    ensures Run(ids, ops).Some? <==> ServedAt(ids, ops, |ops| - 1)
    ensures Run(ids, ops).Some? ==> Run(ids, ops[..|ops| - 1]).Some?
    ensures ServedAt(ids, ops, |ops| - 1) ==> Run(ids, ops[..|ops| - 1]).Some?
  {
    var before, op := ops[..|ops| - 1], ops[|ops| - 1];
    if Run(ids, before).Some? {
      RunSound(ids, before);
      AllowedIsPossible(ids, before, op);
      StepHeap(Run(ids, before).value, op);
    }
  }

  ghost predicate AllServed(ids: nat, ops: seq<Op>) {
    forall k | 0 <= k < |ops| :: ServedAt(ids, ops, k)
  }

  lemma AllServedStep(ids: nat, ops: seq<Op>)
    requires ops != []
    ensures AllServed(ids, ops) <==> AllServed(ids, ops[..|ops| - 1]) && ServedAt(ids, ops, |ops| - 1)
  {
    hide Run, Served;
    var before := ops[..|ops| - 1];
    forall k | 0 <= k < |before| ensures ServedAt(ids, before, k) <==> ServedAt(ids, ops, k) {
      assert before[..k] == ops[..k];
    }
    assert AllServed(ids, ops) ==> forall k | 0 <= k < |before| :: ServedAt(ids, before, k);
  }

  /** A well-formed trace runs to its end exactly when every request on the way is served. */
  lemma {:induction false} RunsIffServed(ids: nat, ops: seq<Op>)
    requires WellFormed(ids, ops)
    ensures Run(ids, ops).Some? <==> AllServed(ids, ops)
  {
    if ops != [] {
      hide Run, AllServed, ServedAt;
      RunsIffServed(ids, ops[..|ops| - 1]);
      LastServed(ids, ops);
      AllServedStep(ids, ops);
    }
  }

  /** The heap only grows, and by no more than the trace can ask for. */
  lemma {:induction false} HeapGrowthBound(ids: nat, ops: seq<Op>)
    requires Run(ids, ops).Some?
    ensures FIRST_BP + CHUNKSIZE <= HeapSize(Run(ids, ops).value.blocks) <= FIRST_BP + CHUNKSIZE + GrowthSum(ops)
  {
    if ops == [] {
      AtOne(Block(CHUNKSIZE, false), FIRST_BP, true);
    } else {
      var before, op := ops[..|ops| - 1], ops[|ops| - 1];
      HeapGrowthBound(ids, before);
      RunSound(ids, before);
      StepHeap(Run(ids, before).value, op);
    }
  }

  lemma {:induction false} GrowthSumMonotone(ops: seq<Op>)
    requires ops != []
    ensures GrowthSum(ops[..|ops| - 1]) <= GrowthSum(ops)
    ensures !ops[|ops| - 1].Free? ==> GrowthSum(ops[..|ops| - 1]) + Growth(ops[|ops| - 1].size) == GrowthSum(ops)
  {
  }

  /** No zero-size request, and the requests together cannot outgrow the heap area. */
  ghost predicate Affordable(ops: seq<Op>) {
    && (forall i | 0 <= i < |ops| :: !ops[i].Free? ==> ops[i].size > 0)
    && FIRST_BP + CHUNKSIZE + GrowthSum(ops) <= MAX_HEAP
  }

  lemma {:induction false} AffordableRuns(ids: nat, ops: seq<Op>)
    requires WellFormed(ids, ops) && Affordable(ops)
    ensures Run(ids, ops).Some?
  {
    if ops != [] {
      var before, op := ops[..|ops| - 1], ops[|ops| - 1];
      GrowthSumMonotone(ops);
      AffordableRuns(ids, before);
      HeapGrowthBound(ids, before);
      RunSound(ids, before);
      AllowedIsPossible(ids, before, op);
      StepHeap(Run(ids, before).value, op);
    }
  }

  // ------------------------------------------------------------------ the verdict

  ghost predicate AllLowBytes(ops: seq<Op>) {
    forall i | 0 <= i < |ops| :: LowByteOk(ops[i])
  }

  lemma AllLowBytesStep(ops: seq<Op>)
    requires ops != []
    ensures AllLowBytes(ops) <==> AllLowBytes(ops[..|ops| - 1]) && LowByteOk(ops[|ops| - 1])
  {
    var before := ops[..|ops| - 1];
    assert forall i | 0 <= i < |before| :: before[i] == ops[i];
  }

  /**
   The driver accepts a well-formed trace exactly when the trace runs to its end and no
   reallocated id has a low byte of 128 or more.
   */
  lemma {:induction false} AcceptsExactly(ids: nat, ops: seq<Op>)
    requires WellFormed(ids, ops)
    ensures Judge(ids, ops).Accepts? <==> Run(ids, ops).Some? && AllLowBytes(ops)
    ensures Judge(ids, ops).Accepts? ==> Judge(ids, ops).st == Run(ids, ops).value
  {
    if ops != [] {
      hide AllLowBytes, LowByteOk;
      var n := |ops| - 1;
      AcceptsExactly(ids, ops[..n]);
      AllLowBytesStep(ops);
      if Run(ids, ops[..n]).Some? {
        AllowedIsPossible(ids, ops[..n], ops[n]);
      }
    }
  }

  /** Every affordable trace whose reallocated ids have low bytes below 128 is accepted. */
  lemma WholeRunSoundness(ids: nat, ops: seq<Op>)
    requires WellFormed(ids, ops) && Affordable(ops)
    requires AllLowBytes(ops)
    ensures Judge(ids, ops).Accepts?
  {
    AffordableRuns(ids, ops);
    AcceptsExactly(ids, ops);
  }

  /** The premise on low bytes is needed: this affordable trace is rejected. */
  lemma HighByteRejected()
    ensures var ops := [Alloc(128, 8), Realloc(128, 8)];
      WellFormed(129, ops) && Affordable(ops) && Run(129, ops).Some? && Judge(129, ops) == Rejects
  {
    var ops := [Alloc(128, 8), Realloc(128, 8)];
    assert ops[..1] == [Alloc(128, 8)] && ops[..1][..0] == [];
    assert GrowthSum([]) == 0;
    assert GrowthSum(ops[..1]) == CHUNKSIZE;
    assert LiveSizes(129, ops[..1])[128] == Some(8);
    assert WellFormed(129, ops[..1]);
    AffordableRuns(129, ops);
    AcceptsExactly(129, ops[..1]);
    AllowedIsPossible(129, ops[..1], ops[1]);
  }

  // ------------------------------------------------------------------ what each run keeps

  /** At every point of its life a block is 8 to 23 bytes larger than the request it serves. */
  lemma FragmentationBound(ids: nat, ops: seq<Op>, id: int)
    requires Run(ids, ops).Some? && 0 <= id < ids && LiveSizes(ids, ops)[id].Some?
    ensures var st, size := Run(ids, ops).value, LiveSizes(ids, ops)[id].value;
      && |st.slots| == ids && st.slots[id].Held? && st.slots[id].bp in LiveBlocks(st.blocks)
      && size + 8 <= LiveBlocks(st.blocks)[st.slots[id].bp] <= size + 23
  {
    RunSound(ids, ops);
    RunMatches(ids, ops);
    SlotLive(Run(ids, ops).value, id);
  }

  /** The blocks of the live ids and the free blocks are the whole heap but for its two ends. */
  lemma Conservation(ids: nat, ops: seq<Op>)
    requires Run(ids, ops).Some?
    ensures var st := Run(ids, ops).value;
      HeldSum(st.slots, LiveBlocks(st.blocks)) + SumFree(st.blocks) == HeapSize(st.blocks) - 16
  {
    RunSound(ids, ops);
    SumAllocAndFree(Run(ids, ops).value.blocks);
  }

  // ------------------------------------------------------------------ utilization

  lemma {:induction false} TotalIsRequestSum(slots: seq<Slot>, sizes: seq<Option<int>>)
    requires SlotsMatch(slots, sizes)
    ensures Total(sizes) == RequestSum(slots)
  {
    if slots != [] {
      TotalIsRequestSum(slots[1..], sizes[1..]);
    }
  }

  function HeldCount(slots: seq<Slot>): int {
    if slots == [] then 0 else (if slots[0].Held? then 1 else 0) + HeldCount(slots[1..])
  }

  /** Each live request owns its own block, with eight bytes to spare. */
  lemma {:induction false} RequestsFit(slots: seq<Slot>, live: map<int, int>)
    requires forall i | 0 <= i < |slots| :: SlotOk(slots[i], live)
    ensures 0 <= RequestSum(slots) && 0 <= HeldCount(slots)
    ensures RequestSum(slots) + OVERHEAD * HeldCount(slots) <= HeldSum(slots, live)
  {
    if slots != [] {
      assert SlotOk(slots[0], live);
      RequestsFit(slots[1..], live);
    }
  }

  /** Live requests, their overhead, prologue and epilogue fit in the heap. */
  lemma LiveRequestsFit(st: State)
    requires Sound(st)
    ensures RequestSum(st.slots) + OVERHEAD * HeldCount(st.slots) + FIRST_BP <= HeapSize(st.blocks)
    ensures 0 <= RequestSum(st.slots) && 0 <= HeldCount(st.slots)
  {
    RequestsFit(st.slots, LiveBlocks(st.blocks));
    SumBounds(st.blocks);
  }

  /** The peak of the live requests is below the final heap size. */
  lemma {:induction false} UtilizationBound(ids: nat, ops: seq<Op>)
    requires Run(ids, ops).Some?
    ensures 0 <= Peak(ids, ops) && Peak(ids, ops) + FIRST_BP <= HeapSize(Run(ids, ops).value.blocks)
  {
    HeapGrowthBound(ids, ops);
    if ops != [] {
      var before, op := ops[..|ops| - 1], ops[|ops| - 1];
      UtilizationBound(ids, before);
      RunSound(ids, before);
      StepHeap(Run(ids, before).value, op);
      RunSound(ids, ops);
      LiveRequestsFit(Run(ids, ops).value);
      RunMatches(ids, ops);
      TotalIsRequestSum(Run(ids, ops).value.slots, LiveSizes(ids, ops));
    }
  }

  lemma {:induction false} NothingLive(ids: nat)
    ensures Total(NoneLive(ids)) == 0
  {
    if ids > 0 {
      assert NoneLive(ids)[1..] == NoneLive(ids - 1);
      NothingLive(ids - 1);
    }
  }

  /** Peak is the maximum over the prefixes: no prefix exceeds it, and one attains it. */
  lemma {:induction false} PeakIsMaximum(ids: nat, ops: seq<Op>) returns (at: nat)
    ensures forall k | 0 <= k <= |ops| :: Total(LiveSizes(ids, ops[..k])) <= Peak(ids, ops)
    ensures at <= |ops| && Total(LiveSizes(ids, ops[..at])) == Peak(ids, ops)
  {
    assert ops[..|ops|] == ops;
    if ops == [] {
      NothingLive(ids);
      at := 0;
    } else {
      var before := ops[..|ops| - 1];
      at := PeakIsMaximum(ids, before);
      assert forall k | 0 <= k <= |before| :: before[..k] == ops[..k];
      if Total(LiveSizes(ids, ops)) == Peak(ids, ops) {
        at := |ops|;
      }
    }
  }
}
