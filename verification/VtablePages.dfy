/** The next-fit bound for runs of allocator-protocol calls, for arbitrary sizes. */
module VtablePages {
  import opened Words
  import opened ArenaModel
  import opened ArenaState
  import opened ArenaBlocks
  import opened VtableRuns
  import opened VtableSteps
  import opened VtableTheorems
  import opened PageBound

  /** The bytes a step may ask of a page: its size, rounded up. */
  function Demand(abi: Abi, op: VOp): nat
    requires abi.maxAlign > 0
  {
    match op
    case Calloc(n, size, _) => AlignUp(n * size, abi.maxAlign)
    case Reallocarray(_, n, size, _) => AlignUp(n * size, abi.maxAlign)
    case _ => 0
  }

  function TotalDemand(abi: Abi, ops: seq<VOp>): nat
    requires abi.maxAlign > 0
  {
    if ops == [] then 0 else TotalDemand(abi, ops[..|ops| - 1]) + Demand(abi, ops[|ops| - 1])
  }

  /** What of a page requests can pay for: all but the alignment of its first block. */
  function Paid(w: World): nat {
    if w.ar.pageSize < w.abi.maxAlign then 0 else w.ar.pageSize - w.abi.maxAlign
  }

  /** The pairing, with the gap in front of a page's first header. */
  ghost predicate VPaired(w: World, k: nat, total: int, recent: int) {
    w.abi.Ok() && Paired(w.ar, w.abi.maxAlign - w.abi.wordBytes, Paid(w), k, total, recent)
  }

  // ---------------------------------------------------------------- the cursor

  lemma RoundingMonotone(x: nat, y: nat, a: nat)
    requires a > 0 && x <= y
    ensures AlignUp(x, a) <= AlignUp(y, a)
  {
    AlignUpAligned(y, a);
    AlignUpIsLeast(x, a, AlignUp(y, a));
  }

  /** A block moves the cursor by no more than its rounded size, from wherever it starts. */
  lemma BlockAdvances(w: World, p: nat, i: nat, size: nat, recent: int)
    requires PagesOk(w) && i < |w.ar.pages| && StartOk(w, p, i)
    requires w.ar.pages[i] <= p && p - w.ar.pages[i] <= w.abi.maxAlign + recent && recent >= 0
    ensures AlignUp(p + size, w.abi.maxAlign) - w.ar.pages[i] <= w.abi.maxAlign + recent + AlignUp(size, w.abi.maxAlign)
  {
    var a := w.abi.maxAlign;
    if Aligned(p, a) {
      AlignUpOffset(p, size, a);
    } else {
      assert PageOk(w, 0);
      AlignUpOffset(w.ar.pages[0], w.abi.wordBytes + size, a);
      RoundingMonotone(w.abi.wordBytes + size, a + size, a);
      NextMultiple(0, a);
      AlignUpOffset(a, size, a);
    }
  }

  /** When header and block do not fit the rest of their page, what was used of it and the block together exceed what
      of a page is paid for. */
  lemma VTwoPagesExceed(w: World, size: nat, recent: int)
    requires VCursorOk(w) && w.ar.pages != [] && size > 0 && HeaderOverruns(w, size) && recent >= 0
    requires w.ar.current + w.abi.wordBytes - w.ar.pages[w.ar.pageIndex] <= w.abi.maxAlign + recent
    ensures recent + AlignUp(size, w.abi.maxAlign) > Paid(w)
  {
    assert PageOk(w, w.ar.pageIndex);
  }

  // ---------------------------------------------------------------- calls

  /** Where an allocation leaves cursor and pages. */
  lemma OpenedAt(w: World, size: nat, base: nat)
    requires VCursorOk(w) && size > 0 && HeaderAnswer(w, size, base) && HeaderOverruns(w, size)
    ensures var v := HeaderPlace(w, size, base);
      && v.abi == w.abi && v.ar.pageSize == w.ar.pageSize && v.ar.pages != [] && v.ar.pageIndex < |v.ar.pages|
      && v.ar.current + w.abi.wordBytes == v.ar.pages[v.ar.pageIndex] + w.abi.maxAlign
      && Aligned(v.ar.current + w.abi.wordBytes, w.abi.maxAlign)
      && (if Recycles(w.ar, size + w.abi.maxAlign) then v.ar.pages == w.ar.pages
          else |v.ar.pages| == |w.ar.pages| + 1 && v.ar.pageIndex == |w.ar.pages|)
  {
    NewPageOpens(w, size + w.abi.maxAlign, base);
    NextMultiple(NewPage(w, size + w.abi.maxAlign, base).ar.current, w.abi.maxAlign);
  }

  lemma OpeningPaired(w: World, size: nat, base: nat, k: nat, total: int, recent: int)
    requires VCursorOk(w) && size > 0 && HeaderAnswer(w, size, base) && HeaderOverruns(w, size)
    requires VPaired(w, k, total, recent)
    ensures var ask := AlignUp(size, w.abi.maxAlign);
      VPaired(HeaderAlloc(w, size, base).0, k, total + ask, ask)
  {
    var ask := AlignUp(size, w.abi.maxAlign);
    if |w.ar.pages| > k {
      VTwoPagesExceed(w, size, recent);
    }
    OpenedAlloc(w, size, base);
    OpenPaired(w.ar, HeaderAlloc(w, size, base).0.ar, w.abi.maxAlign - w.abi.wordBytes, Paid(w), k, total, recent, ask);
  }

  lemma OpenedAlloc(w: World, size: nat, base: nat)
    requires VCursorOk(w) && size > 0 && HeaderAnswer(w, size, base) && HeaderOverruns(w, size)
    ensures var v := HeaderAlloc(w, size, base).0;
      && v.abi == w.abi && v.ar.pageSize == w.ar.pageSize && v.ar.pageIndex < |v.ar.pages|
      && v.ar.current + w.abi.wordBytes == v.ar.pages[v.ar.pageIndex] + w.abi.maxAlign + AlignUp(size, w.abi.maxAlign)
      && (if Recycles(w.ar, size + w.abi.maxAlign) then v.ar.pages == w.ar.pages
          else |v.ar.pages| == |w.ar.pages| + 1 && v.ar.pageIndex == |w.ar.pages|)
  {
    var v := HeaderPlace(w, size, base);
    OpenedAt(w, size, base);
    AlignUpOffset(v.ar.current + w.abi.wordBytes, size, w.abi.maxAlign);
  }

  lemma PlacedPaired(w: World, size: nat, base: nat, k: nat, total: int, recent: int)
    requires VCursorOk(w) && size > 0 && HeaderAnswer(w, size, base) && !HeaderOverruns(w, size)
    requires VPaired(w, k, total, recent)
    ensures var ask := AlignUp(size, w.abi.maxAlign);
      VPaired(HeaderAlloc(w, size, base).0, k, total + ask, recent + ask)
  {
    if |w.ar.pages| > k {
      BlockAdvances(w, w.ar.current + w.abi.wordBytes, w.ar.pageIndex, size, recent);
    }
  }

  /** An allocation keeps the account of the requests. */
  lemma VAllocPaired(w: World, size: nat, base: nat, k: nat, total: int, recent: int) returns (r: int)
    requires VCursorOk(w) && size > 0 && HeaderAnswer(w, size, base) && VPaired(w, k, total, recent)
    ensures VPaired(HeaderAlloc(w, size, base).0, k, total + AlignUp(size, w.abi.maxAlign), r)
  {
    if HeaderOverruns(w, size) {
      r := AlignUp(size, w.abi.maxAlign);
      OpeningPaired(w, size, base, k, total, recent);
    } else {
      r := recent + AlignUp(size, w.abi.maxAlign);
      PlacedPaired(w, size, base, k, total, recent);
    }
  }

  lemma VResizedPaired(s: State, p: nat, size: nat, k: nat, total: int, recent: int)
    requires VInv(s) && p in s.live && p >= s.w.abi.wordBytes && VExtends(s.w, p, size)
    requires VPaired(s.w, k, total, recent)
    ensures var ask := AlignUp(size, s.w.abi.maxAlign);
      VPaired(VResized(s, p, size).w, k, total + ask, recent + ask)
  {
    VBlock(s, p);
    if |s.w.ar.pages| > k {
      BlockAdvances(s.w, p, s.w.ar.pageIndex, size, recent);
    }
  }

  lemma VReallocPaired(s: State, block: nat, total: nat, base: nat, k: nat, sum: int, recent: int) returns (r: int)
    requires VInv(s) && VReallocOk(s, block, total, base) && VPaired(s.w, k, sum, recent)
    ensures VPaired(VRealloc(s, block, total, base).0.w, k, sum + AlignUp(total, s.w.abi.maxAlign), r)
  {
    if block != 0 && VExtends(s.w, block, total) {
      VResizedPaired(s, block, total, k, sum, recent);
      r := recent + AlignUp(total, s.w.abi.maxAlign);
    } else {
      var ask := AlignUp(total, s.w.abi.maxAlign);
      r := VAllocPaired(s.w, total, base, k, sum, recent);
      SamePaired(HeaderAlloc(s.w, total, base).0, VRealloc(s, block, total, base).0.w, k, sum + ask, r);
    }
  }

  lemma VCallocPaired(s: State, total: nat, base: nat, k: nat, sum: int, recent: int) returns (r: int)
    requires VInv(s) && VAllocOk(s, total, base) && VPaired(s.w, k, sum, recent)
    ensures VPaired(VCalloc(s, total, base).0.w, k, sum + AlignUp(total, s.w.abi.maxAlign), r)
  {
    var ask := AlignUp(total, s.w.abi.maxAlign);
    r := VAllocPaired(s.w, total, base, k, sum, recent);
    SamePaired(HeaderAlloc(s.w, total, base).0, VCalloc(s, total, base).0.w, k, sum + ask, r);
  }

  /** The account does not depend on memory. */
  lemma SamePaired(w: World, v: World, k: nat, total: int, recent: int)
    requires VPaired(w, k, total, recent) && v.abi == w.abi && v.ar == w.ar
    ensures VPaired(v, k, total, recent)
  {
  }

  lemma VFreePaired(s: State, block: nat, k: nat, total: int, recent: int)
    requires VInv(s) && (block == 0 || block > s.w.abi.wordBytes) && VPaired(s.w, k, total, recent)
    ensures VPaired(VFree(s, block).w, k, total, recent)
  {
    if block != 0 && IsLast(s.w, block) {
      VBlock(s, block);
    }
  }

  // ---------------------------------------------------------------- steps and runs

  /** Every step keeps the account, beyond the same k pages or, after a reset, beyond none. */
  lemma VStepPaired(s: State, op: VOp, k: nat, total: int, recent: int) returns (k2: nat, r: int)
    requires VInv(s) && VOpOk(s, op) && VKeepsNone(op) && VPaired(s.w, k, total, recent)
    ensures k2 <= k && VPaired(VStep(s, op).0.w, k2, total + Demand(s.w.abi, op), r)
  {
    if op.Calloc? || op.Reallocarray? {
      k2 := k;
      r := VAskPaired(s, op, op.n * op.size, k, total, recent);
    } else {
      k2, r := VOtherPaired(s, op, k, total, recent);
    }
  }

  /** The steps that ask for memory. */
  lemma VAskPaired(s: State, op: VOp, ask: nat, k: nat, total: int, recent: int) returns (r: int)
    requires VInv(s) && VOpOk(s, op) && VPaired(s.w, k, total, recent)
    requires (op.Calloc? || op.Reallocarray?) && ask == op.n * op.size
    ensures VPaired(VStep(s, op).0.w, k, total + AlignUp(ask, s.w.abi.maxAlign), r)
  {
    if op.Calloc? {
      assert VStep(s, op) == VCalloc(s, ask, op.base);
      r := VCallocPaired(s, ask, op.base, k, total, recent);
    } else {
      assert VStep(s, op) == VRealloc(s, op.block, ask, op.base);
      r := VReallocPaired(s, op.block, ask, op.base, k, total, recent);
    }
  }

  /** The steps that ask for no memory. */
  lemma VOtherPaired(s: State, op: VOp, k: nat, total: int, recent: int) returns (k2: nat, r: int)
    requires VInv(s) && VOpOk(s, op) && VKeepsNone(op) && VPaired(s.w, k, total, recent)
    requires !op.Calloc? && !op.Reallocarray?
    ensures k2 <= k && VPaired(VStep(s, op).0.w, k2, total, r)
  {
    k2, r := k, recent;
    match op
    case Free(block) => VFreePaired(s, block, k, total, recent);
    case Write(_, _, _) => SamePaired(s.w, VStep(s, op).0.w, k, total, recent);
    case Elsewhere(_) => SamePaired(s.w, VStep(s, op).0.w, k, total, recent);
    case Rewind(_) =>
      k2, r := 0, 0;
      VForget(s.w, 0, k, total, recent);
    case RewindPercent(_) =>
      k2, r := 0, 0;
      VForget(s.w, KeepCount(|s.w.ar.pages|, 0), k, total, recent);
  }

  lemma VForget(w: World, count: nat, k: nat, total: int, recent: int)
    requires count == 0 && VPaired(w, k, total, recent)
    ensures VPaired(ResetKeep(w, count), 0, total, 0)
  {
    ForgetPages(w, count, w.abi.maxAlign - w.abi.wordBytes, Paid(w), k, total, recent);
  }

  lemma StepKeepsSizes(s: State, op: VOp)
    requires s.w.abi.Ok() && VOpArgs(s, op)
    ensures VStep(s, op).0.w.ar.pageSize == s.w.ar.pageSize && VStep(s, op).0.w.abi == s.w.abi
  {
  }

  lemma {:induction false} VRunPaired(states: seq<State>, ops: seq<VOp>, ps: seq<nat>, i: nat)
    returns (k: nat, r: int)
    requires IsVRun(states, ops, ps) && VInv(states[0]) && i <= |ops|
    requires forall j: nat :: j < i ==> VKeepsNone(ops[j])
    ensures states[i].w.abi == states[0].w.abi && states[i].w.ar.pageSize == states[0].w.ar.pageSize
    ensures k <= |states[0].w.ar.pages|
    ensures VPaired(states[i].w, k, TotalDemand(states[0].w.abi, ops[..i]), r)
  {
    if i == 0 {
      k, r := |states[0].w.ar.pages|, 0;
    } else {
      k, r := VRunPaired(states, ops, ps, i - 1);
      VRunInv(states, ops, ps, i - 1);
      assert VCallAt(states, ops, ps, i - 1) && CopyAt(states, ops, i - 1);
      StepKeepsSizes(states[i - 1], ops[i - 1]);
      k, r := VStepPaired(states[i - 1], ops[i - 1], k, TotalDemand(states[0].w.abi, ops[..i - 1]), r);
      assert ops[..i][..i - 1] == ops[..i - 1];
    }
  }

  /** The next-fit bound for protocol runs, from any state and for arbitrary sizes: m more pages are held only if the
      rounded sizes add up to floor(m/2) times more than a page less one alignment, however the system
      places pages, and however much is freed, resized and moved. */
  lemma VNextFitBoundFrom(states: seq<State>, ops: seq<VOp>, ps: seq<nat>)
    requires IsVRun(states, ops, ps) && VInv(states[0])
    requires forall j: nat :: j < |ops| ==> VKeepsNone(ops[j])
    ensures var w := states[|ops|].w;
      var k := |states[0].w.ar.pages|;
      && w.abi.Ok() && w.abi == states[0].w.abi && Paid(w) == Paid(states[0].w)
      && (|w.ar.pages| >= k ==> PairBound(|w.ar.pages| - k, Paid(w)) <= TotalDemand(w.abi, ops))
  {
    var k, r := VRunPaired(states, ops, ps, |ops|);
    assert ops[..|ops|] == ops;
    var w := states[|ops|].w;
    if |w.ar.pages| >= |states[0].w.ar.pages| {
      PairBoundGrows(|w.ar.pages| - |states[0].w.ar.pages|, |w.ar.pages| - k, Paid(w));
    }
  }

  /** From an initialised arena the bound counts all pages. */
  lemma VNextFitBound(states: seq<State>, ops: seq<VOp>, ps: seq<nat>)
    requires IsVRun(states, ops, ps) && StartsFresh(states[0])
    requires forall j: nat :: j < |ops| ==> VKeepsNone(ops[j])
    ensures var w := states[|ops|].w;
      && w.abi.Ok() && w.abi == states[0].w.abi && Paid(w) == Paid(states[0].w)
      && PairBound(|w.ar.pages|, Paid(w)) <= TotalDemand(w.abi, ops)
  {
    FreshSafe(states[0]);
    VNextFitBoundFrom(states, ops, ps);
  }
}
