/** What holds after every run of raw calls that starts from an initialised arena. */
module RawTheorems {
  import opened Words
  import opened Memory
  import opened ArenaModel
  import opened ArenaState
  import opened ArenaBlocks
  import opened RawRuns
  import opened PageBound

  // ---------------------------------------------------------------- runs

  /** Step i of a run is legal, answers ps[i] and leads to the next state. */
  ghost predicate StepAt(states: seq<State>, ops: seq<RawOp>, ps: seq<nat>, i: nat)
    requires i < |ops| && |states| == |ops| + 1 && |ps| == |ops|
  {
    RawOpOk(states[i], ops[i]) && RawStep(states[i], ops[i]) == (states[i + 1], ps[i])
  }

  /** A run: the states passed through, the operations, and the pointers returned. */
  ghost predicate IsRun(states: seq<State>, ops: seq<RawOp>, ps: seq<nat>) {
    && |states| == |ops| + 1 && |ps| == |ops|
    && forall i: nat {:trigger StepAt(states, ops, ps, i)} :: i < |ops| ==> StepAt(states, ops, ps, i)
  }

  ghost predicate HeapStepAt(heaps: seq<Heap>, ops: seq<RawOp>, ps: seq<nat>, i: nat)
    requires i < |ops| && |heaps| == |ops| + 1 && |ps| == |ops|
  {
    HeapStep(heaps[i], ops[i], ps[i], heaps[i + 1])
  }

  /** A run of the abstract heap, given the addresses chosen for its blocks. */
  ghost predicate IsHeapRun(heaps: seq<Heap>, ops: seq<RawOp>, ps: seq<nat>) {
    && |heaps| == |ops| + 1 && |ps| == |ops|
    && forall i: nat {:trigger HeapStepAt(heaps, ops, ps, i)} :: i < |ops| ==> HeapStepAt(heaps, ops, ps, i)
  }

  lemma FreshInv(abi: Abi, pageSize: nat, foreign: Bytes)
    requires abi.Ok()
    ensures RawInv(Fresh(abi, pageSize, foreign))
  {
  }

  /** The invariant holds all along a run. */
  lemma {:induction false} RawRunInv(states: seq<State>, ops: seq<RawOp>, ps: seq<nat>, i: nat)
    requires IsRun(states, ops, ps) && RawInv(states[0]) && i <= |ops|
    ensures RawInv(states[i])
  {
    if i > 0 {
      RawRunInv(states, ops, ps, i - 1);
      assert StepAt(states, ops, ps, i - 1);
      RawStepInv(states[i - 1], ops[i - 1]);
    }
  }

  /** Raw runs refine the abstract heap: at every point of a run the live blocks hold exactly what an
      allocator without pages, cursors and memory reuse would have them hold. */
  lemma RawRunRefines(states: seq<State>, ops: seq<RawOp>, ps: seq<nat>)
    requires IsRun(states, ops, ps) && RawInv(states[0])
    ensures IsHeapRun(seq(|states|, i requires 0 <= i < |states| => HeapOf(states[i])), ops, ps)
  {
    var heaps := seq(|states|, i requires 0 <= i < |states| => HeapOf(states[i]));
    forall i: nat | i < |ops| ensures HeapStepAt(heaps, ops, ps, i) {
      RawRunInv(states, ops, ps, i);
      assert StepAt(states, ops, ps, i);
      RawStepRefines(states[i], ops[i]);
    }
  }

  /** The operations that name a block, or all blocks. */
  predicate Touches(op: RawOp, p: nat) {
    match op
    case Resize(block, _, _, _, _) => block == p
    case Write(block, _, _) => block == p
    case Rewind(_) => true
    case RewindPercent(_) => true
    case _ => false
  }

  /** A block that no operation of an abstract run names keeps its bytes. */
  lemma {:induction false} HeapBystander(heaps: seq<Heap>, ops: seq<RawOp>, ps: seq<nat>, p: nat, i: nat)
    requires IsHeapRun(heaps, ops, ps) && i <= |ops|
    requires p in heaps[0] && p != 0 && forall k: nat :: k < i ==> !Touches(ops[k], p)
    ensures p in heaps[i] && heaps[i][p] == heaps[0][p]
  {
    if i > 0 {
      HeapBystander(heaps, ops, ps, p, i - 1);
      assert HeapStepAt(heaps, ops, ps, i - 1);
    }
  }

  /** A live block that no operation of a run names stays live and keeps its bytes, however the others
      are allocated, moved, resized, copied and written, and whatever else happens on the machine. */
  lemma BystanderSurvives(states: seq<State>, ops: seq<RawOp>, ps: seq<nat>, p: nat, i: nat)
    requires IsRun(states, ops, ps) && RawInv(states[0]) && i <= |ops|
    requires p in states[0].live && forall k: nat :: k < i ==> !Touches(ops[k], p)
    ensures p in states[i].live && Contents(states[i], p) == Contents(states[0], p)
  {
    assert BlockOk(states[0], p);
    RawRunRefines(states, ops, ps);
    var heaps := seq(|states|, j requires 0 <= j < |states| => HeapOf(states[j]));
    HeapBystander(heaps, ops, ps, p, i);
    assert p in heaps[i] && heaps[i][p] == HeapOf(states[0])[p];
  }

  ghost predicate Reachable(s: State) {
    exists states: seq<State>, ops: seq<RawOp>, ps: seq<nat> ::
      IsRun(states, ops, ps) && StartsFresh(states[0]) && states[|ops|] == s
  }

  lemma ReachableInv(s: State)
    requires Reachable(s)
    ensures RawInv(s)
  {
    var states: seq<State>, ops: seq<RawOp>, ps: seq<nat> :|
      IsRun(states, ops, ps) && StartsFresh(states[0]) && states[|ops|] == s;
    var abi: Abi, pageSize: nat, foreign: Bytes :| abi.Ok() && states[0] == Fresh(abi, pageSize, foreign);
    FreshInv(abi, pageSize, foreign);
    RawRunInv(states, ops, ps, |ops|);
  }

  /** Spatial safety in every reachable state: each live block lies inside one outstanding system
      page, starts at a multiple of its alignment, and shares no byte with another live block. */
  lemma RawSpatialSafety(s: State, p: nat, q: nat)
    requires Reachable(s) && p in s.live && q in s.live
    ensures var b := s.live[p];
      && b.size > 0 && b.alignment > 0 && Aligned(p, b.alignment)
      && b.page < |s.w.ar.pages|
      && s.w.ar.pages[b.page] in s.w.owned
      && s.w.ar.pages[b.page] <= p && p + b.size <= s.w.ar.pages[b.page] + s.w.owned[s.w.ar.pages[b.page]]
      && Mapped(s.w.mem, p, b.size)
      && (p != q ==> Apart(p, b.size, q, s.live[q].size))
  {
    ReachableInv(s);
    assert BlockOk(s, p) && PageOk(s.w, s.live[p].page);
    BlockMapped(s, p);
    assert p != q ==> PairApart(s, p, q);
  }

  /** The fast path of realloc is sound in every reachable state: a live block that matches
      `_last` is the highest of the current page, and no other live block has a byte between its
      start and the sentinel, which is inside the page. */
  lemma RawFastPathSound(s: State, q: nat)
    requires Reachable(s) && s.w.ar.last in s.live && q in s.live && q != s.w.ar.last
    ensures s.live[s.w.ar.last].page == s.w.ar.pageIndex < |s.w.ar.pages|
    ensures s.w.ar.last < s.w.ar.sentinel
    ensures Apart(s.w.ar.last, s.w.ar.sentinel - s.w.ar.last, q, s.live[q].size)
    ensures s.w.ar.sentinel <= s.w.ar.pages[s.w.ar.pageIndex] + s.w.PageBytes(s.w.ar.pageIndex)
  {
    ReachableInv(s);
    assert BlockOk(s, s.w.ar.last);
    ResizedApart(s, s.w.ar.last, s.w.ar.sentinel - s.w.ar.last, q);
  }

  /** Page conservation in every reachable state: the outstanding system pages are exactly the
      entries of the page list, which lists none twice. */
  lemma RawPagesConserved(s: State)
    requires Reachable(s)
    ensures s.w.owned.Keys == PageSet(s.w.ar.pages)
    ensures forall i: nat, j: nat :: i < j < |s.w.ar.pages| ==> s.w.ar.pages[i] != s.w.ar.pages[j]
  {
    ReachableInv(s);
    PagesAccounted(s.w);
  }

  /** Memory handed out for the first time since the last reset reads zero, even from plain alloc:
      through recycled pages, and kept oversize pages clipped to the page size. */
  lemma FirstGrantIsZero(s: State, size: nat, alignment: nat, base: nat, k: nat)
    requires Reachable(s) && AllocOk(s, size, alignment, base) && k < size
    requires RawAlloc(s, size, alignment, base).1 + k !in s.granted
    ensures var (t, p) := RawAlloc(s, size, alignment, base); Contents(t, p)[k] == 0
  {
    ReachableInv(s);
    AllocFits(s.w, size, alignment, base);
    var (t, p) := RawAlloc(s, size, alignment, base);
    assert Contents(t, p)[k] == Peek(t.w.mem, p + k);
    AllocIsZero(s, size, alignment, base);
    assert t.w.ar.pages[t.w.ar.pageIndex] <= p + k < t.w.ar.sentinel;
  }

  /** The in-place path really gives what was not asked for: on every platform and for every placement of
      the first page, after two one-byte allocations realloc to two bytes, two-byte aligned, answers
      an odd address. */
  lemma ReallocMisaligns(abi: Abi, pageSize: nat, foreign: Bytes, base: nat)
    requires abi.Ok() && abi.maxAlign >= 2 && pageSize >= 3
    requires PageAnswer(Fresh(abi, pageSize, foreign).w, 1, base)
    ensures var s := Fresh(abi, pageSize, foreign);
      var t := RawAlloc(s, 1, 1, base).0;
      var (u, p) := RawAlloc(t, 1, 1, 0);
      && Reachable(u) && ReallocOk(u, p, 1, 2, 2, 0)
      && !Aligned(RawRealloc(u, p, 1, 2, 2, 0).1, 2)
  {
    var s := Fresh(abi, pageSize, foreign);
    var (t, p0) := RawAlloc(s, 1, 1, base);
    var (u, p) := RawAlloc(t, 1, 1, 0);
    assert p0 == base && p == base + 1 by {
      RoundingIsAlignUp(0, 1, 0);
      AlignedToOne(base);
      AlignedToOne(base + 1);
      RoundingIsAlignUp(base, 1, base);
      RoundingIsAlignUp(base + 1, 1, base + 1);
    }
    var states, ops, ps := [s, t, u], [Get(1, 1, base), Get(1, 1, 0)], [p0, p];
    assert StepAt(states, ops, ps, 0) && StepAt(states, ops, ps, 1);
    assert IsRun(states, ops, ps);
    assert !Aligned(base + 1, 2) by {
      assert 2 == Pow2(1);
      PowersNest(abi.maxAlign, 2);
      MultipleOfMultiple(base, abi.maxAlign, 2);
      AddMultiples(base, 1, 2);
    }
  }

  // ---------------------------------------------------------------- the next-fit bound

  /** The bytes a step may ask of a page. */
  function Demand(op: RawOp): int {
    match op
    case Get(size, alignment, _) => size + alignment - 1
    case GetZeroed(size, alignment, _) => size + alignment - 1
    case Resize(_, _, newSize, alignment, _) => newSize + alignment - 1
    case Dup(_, data, _) => |data|
    case DupString(_, text, _) => |text| + 1
    case _ => 0
  }

  function TotalDemand(ops: seq<RawOp>): int {
    if ops == [] then 0 else TotalDemand(ops[..|ops| - 1]) + Demand(ops[|ops| - 1])
  }

  /** Resets, if any, keep no page. */
  predicate KeepsNone(op: RawOp) {
    match op
    case Rewind(count) => count == 0
    case RewindPercent(percent) => percent == 0
    case _ => true
  }

  /** The pairing for raw calls: there is no gap, and requests pay for whole pages. */
  ghost predicate RawPaired(ar: Arena, k: nat, total: int, recent: int) {
    Paired(ar, 0, ar.pageSize, k, total, recent)
  }

  /** When a block does not fit the rest of its page, what was used of the page and what the block may
      ask of the next one together exceed the page size. */
  lemma TwoPagesExceed(s: State, size: nat, alignment: nat)
    requires RawInv(s) && s.w.ar.pages != [] && alignment > 0 && Overruns(s.w, size, alignment)
    ensures s.w.ar.current - s.w.ar.pages[s.w.ar.pageIndex] + (size + alignment - 1) > s.w.ar.pageSize
  {
  }

  /** One allocation keeps the pairing: `recent` grows by the demand, or starts again on a new page. */
  lemma AllocPaired(s: State, size: nat, alignment: nat, base: nat, k: nat, total: int, recent: int) returns (r: int)
    requires RawInv(s) && AllocOk(s, size, alignment, base) && RawPaired(s.w.ar, k, total, recent)
    ensures RawPaired(Alloc(s.w, size, alignment, base).0.ar, k, total + size + alignment - 1, r)
  {
    var ask := size + alignment - 1;
    AllocFits(s.w, size, alignment, base);
    if Overruns(s.w, size, alignment) {
      r := ask;
      if s.w.ar.pages != [] {
        TwoPagesExceed(s, size, alignment);
      }
      OpenPaired(s.w.ar, Alloc(s.w, size, alignment, base).0.ar, 0, s.w.ar.pageSize, k, total, recent, ask);
    } else {
      r := recent + ask;
    }
  }

  /** Resizing in place moves the cursor by no more than the new size. */
  lemma ResizePaired(s: State, p: nat, size: nat, alignment: nat, k: nat, total: int, recent: int)
    requires RawInv(s) && p in s.live && size > 0 && alignment > 0
    requires ExtendsInPlace(s.w.ar, p, size) && RawPaired(s.w.ar, k, total, recent)
    ensures RawPaired(Resized(s, p, size).w.ar, k, total + size + alignment - 1, recent + size + alignment - 1)
  {
    assert BlockOk(s, p);
  }

  lemma ReallocPaired(s: State, op: RawOp, k: nat, total: int, recent: int) returns (r: int)
    requires RawInv(s) && RawOpOk(s, op) && op.Resize? && RawPaired(s.w.ar, k, total, recent)
    ensures RawPaired(RawStep(s, op).0.w.ar, k, total + Demand(op), r)
  {
    if op.block != 0 && ExtendsInPlace(s.w.ar, op.block, op.newSize) {
      ResizePaired(s, op.block, op.newSize, op.alignment, k, total, recent);
      r := recent + Demand(op);
    } else {
      r := AllocPaired(s, op.newSize, op.alignment, op.base, k, total, recent);
      assert RawStep(s, op).0.w.ar == Alloc(s.w, op.newSize, op.alignment, op.base).0.ar;
    }
  }

  /** Every step keeps the pairing, beyond the same k pages or, after a reset, beyond none. */
  lemma StepPaired(s: State, op: RawOp, k: nat, total: int, recent: int) returns (k2: nat, r: int)
    requires RawInv(s) && RawOpOk(s, op) && KeepsNone(op) && RawPaired(s.w.ar, k, total, recent)
    ensures k2 <= k && RawPaired(RawStep(s, op).0.w.ar, k2, total + Demand(op), r)
  {
    if op.Rewind? || op.RewindPercent? {
      ForgetPages(s.w, if op.Rewind? then 0 else KeepCount(|s.w.ar.pages|, 0), 0, s.w.ar.pageSize, k, total, recent);
      k2, r := 0, 0;
    } else if op.Write? || op.Elsewhere? {
      assert RawStep(s, op).0.w.ar == s.w.ar;
      k2, r := k, recent;
    } else if op.Resize? {
      k2 := k;
      r := ReallocPaired(s, op, k, total, recent);
    } else {
      k2 := k;
      r := NewPaired(s, op, k, total, recent);
    }
  }

  lemma NewPaired(s: State, op: RawOp, k: nat, total: int, recent: int) returns (r: int)
    requires RawInv(s) && RawOpOk(s, op) && (op.Get? || op.GetZeroed? || op.Dup? || op.DupString?)
    requires RawPaired(s.w.ar, k, total, recent)
    ensures RawPaired(RawStep(s, op).0.w.ar, k, total + Demand(op), r)
  {
    var (size: nat, alignment: nat) := match op
      case Get(n, a, _) => (n, a)
      case GetZeroed(n, a, _) => (n, a)
      case Dup(_, data, _) => (|data|, 1)
      case DupString(_, text, _) => (|text| + 1, 1);
    assert RawStep(s, op).0.w.ar == Alloc(s.w, size, alignment, op.base).0.ar;
    r := AllocPaired(s, size, alignment, op.base, k, total, recent);
  }

  lemma {:induction false} RunPaired(states: seq<State>, ops: seq<RawOp>, ps: seq<nat>, i: nat)
    returns (k: nat, r: int)
    requires IsRun(states, ops, ps) && RawInv(states[0]) && i <= |ops|
    requires forall j: nat :: j < i ==> KeepsNone(ops[j])
    ensures k <= |states[0].w.ar.pages| && RawPaired(states[i].w.ar, k, TotalDemand(ops[..i]), r)
  {
    if i == 0 {
      k, r := |states[0].w.ar.pages|, 0;
    } else {
      k, r := RunPaired(states, ops, ps, i - 1);
      RawRunInv(states, ops, ps, i - 1);
      assert StepAt(states, ops, ps, i - 1);
      k, r := StepPaired(states[i - 1], ops[i - 1], k, TotalDemand(ops[..i - 1]), r);
      assert ops[..i][..i - 1] == ops[..i - 1];
    }
  }

  /** The next-fit bound from any state, such as the one after a reset that keeps k pages: m more pages are
      held only if the requests add up to floor(m/2) times more than a page, however the system places
      pages and however requests are ordered. */
  lemma NextFitBoundFrom(states: seq<State>, ops: seq<RawOp>, ps: seq<nat>)
    requires IsRun(states, ops, ps) && RawInv(states[0])
    requires forall j: nat :: j < |ops| ==> KeepsNone(ops[j])
    ensures var ar := states[|ops|].w.ar;
      var k := |states[0].w.ar.pages|;
      && ar.pageSize == states[0].w.ar.pageSize
      && (|ar.pages| >= k ==> PairBound(|ar.pages| - k, ar.pageSize) <= TotalDemand(ops))
  {
    var k, r := RunPaired(states, ops, ps, |ops|);
    assert ops[..|ops|] == ops;
    PageSizeFixed(states, ops, ps, |ops|);
    var ar := states[|ops|].w.ar;
    if |ar.pages| >= |states[0].w.ar.pages| {
      PairBoundGrows(|ar.pages| - |states[0].w.ar.pages|, |ar.pages| - k, ar.pageSize);
    }
  }

  /** From an initialised arena the bound counts all pages. */
  lemma NextFitBound(states: seq<State>, ops: seq<RawOp>, ps: seq<nat>)
    requires IsRun(states, ops, ps) && StartsFresh(states[0])
    requires forall k: nat :: k < |ops| ==> KeepsNone(ops[k])
    ensures var ar := states[|ops|].w.ar;
      && ar.pageSize == states[0].w.ar.pageSize
      && PairBound(|ar.pages|, ar.pageSize) <= TotalDemand(ops)
  {
    var abi: Abi, pageSize: nat, foreign: Bytes :| abi.Ok() && states[0] == Fresh(abi, pageSize, foreign);
    FreshInv(abi, pageSize, foreign);
    NextFitBoundFrom(states, ops, ps);
  }

  lemma {:induction false} PageSizeFixed(states: seq<State>, ops: seq<RawOp>, ps: seq<nat>, i: nat)
    requires IsRun(states, ops, ps) && i <= |ops|
    ensures states[i].w.ar.pageSize == states[0].w.ar.pageSize
  {
    if i > 0 {
      PageSizeFixed(states, ops, ps, i - 1);
      assert StepAt(states, ops, ps, i - 1);
      StepKeepsPageSize(states[i - 1], ops[i - 1]);
    }
  }

  lemma StepKeepsPageSize(s: State, op: RawOp)
    requires RawOpOk(s, op)
    ensures RawStep(s, op).0.w.ar.pageSize == s.w.ar.pageSize
  {
  }
}
