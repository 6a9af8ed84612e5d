/** What holds after every run of allocator-protocol calls that starts from an initialised arena. */
module VtableTheorems {
  import opened Words
  import opened Memory
  import opened ArenaModel
  import opened ArenaState
  import opened ArenaBlocks
  import opened VtableRuns
  import opened VtableSteps
  import opened VtableHeaders
  import opened VtableContents

  // ---------------------------------------------------------------- runs

  /** Step i calls with proper arguments, answers ps[i] and leads to the next state. */
  ghost predicate VCallAt(states: seq<State>, ops: seq<VOp>, ps: seq<nat>, i: nat)
    requires i < |ops| && |states| == |ops| + 1 && |ps| == |ops|
  {
    && states[i].w.abi.Ok() && VOpArgs(states[i], ops[i])
    && VStep(states[i], ops[i]) == (states[i + 1], ps[i])
  }

  /** A run, as far as the protocol binds clients: the states passed through, the operations, and the
      pointers returned. */
  ghost predicate IsVCalls(states: seq<State>, ops: seq<VOp>, ps: seq<nat>) {
    && |states| == |ops| + 1 && |ps| == |ops|
    && forall i: nat {:trigger VCallAt(states, ops, ps, i)} :: i < |ops| ==> VCallAt(states, ops, ps, i)
  }

  ghost predicate CopyAt(states: seq<State>, ops: seq<VOp>, i: nat)
    requires i < |ops| && |states| == |ops| + 1
  {
    VOpOk(states[i], ops[i])
  }

  /** A run all of whose copies are defined. */
  ghost predicate IsVRun(states: seq<State>, ops: seq<VOp>, ps: seq<nat>) {
    && IsVCalls(states, ops, ps)
    && forall i: nat {:trigger CopyAt(states, ops, i)} :: i < |ops| ==> CopyAt(states, ops, i)
  }

  /** The spatial invariant holds all along a run, for arbitrary sizes and all resets. */
  lemma {:induction false} VRunInv(states: seq<State>, ops: seq<VOp>, ps: seq<nat>, i: nat)
    requires IsVRun(states, ops, ps) && VInv(states[0]) && i <= |ops|
    ensures VInv(states[i])
  {
    if i > 0 {
      VRunInv(states, ops, ps, i - 1);
      assert VCallAt(states, ops, ps, i - 1) && CopyAt(states, ops, i - 1);
      VStepInv(states[i - 1], ops[i - 1]);
    }
  }

  // ---------------------------------------------------------------- headers along a run

  ghost predicate SparesAt(states: seq<State>, ops: seq<VOp>, i: nat)
    requires i < |ops| && |states| == |ops| + 1
  {
    SparesHeaders(states[i], ops[i])
  }

  /** The copy of a reallocarray, if the step is one, reads the old block only. */
  ghost predicate InsideAt(states: seq<State>, ops: seq<VOp>, i: nat)
    requires i < |ops| && |states| == |ops| + 1
  {
    StaysInside(states[i], ops[i])
  }

  ghost predicate StaysInside(s: State, op: VOp) {
    op.Reallocarray? ==> (op.block == 0 || op.block in s.live) && CopyInside(s, op.block, op.n * op.size)
  }

  /** A true header keeps the copy inside its block, so it is a defined one. */
  lemma TrueHeaderCopies(s: State, op: VOp)
    requires VInv(s) && HeadersTrue(s) && VOpArgs(s, op)
    ensures VOpOk(s, op) && StaysInside(s, op)
  {
    if op.Reallocarray? {
      assert op.block != 0 ==> TrueHeader(s, op.block);
      InsideIsDefined(s, op.block, op.n * op.size, op.base);
    }
  }

  /** For arbitrary sizes and all resets: as long as clients store into no header, headers are true all along,
      and every copy of a reallocarray stays inside its old block. */
  lemma {:induction false} VRunHeaders(states: seq<State>, ops: seq<VOp>, ps: seq<nat>, i: nat)
    requires IsVCalls(states, ops, ps) && VInv(states[0]) && HeadersTrue(states[0]) && i <= |ops|
    requires forall k: nat {:trigger SparesAt(states, ops, k)} :: k < i ==> SparesAt(states, ops, k)
    ensures VInv(states[i]) && HeadersTrue(states[i])
    ensures forall k: nat {:trigger CopyAt(states, ops, k)} :: k < i ==> CopyAt(states, ops, k)
    ensures forall k: nat {:trigger InsideAt(states, ops, k)} :: k < i ==> InsideAt(states, ops, k)
  {
    if i > 0 {
      VRunHeaders(states, ops, ps, i - 1);
      assert VCallAt(states, ops, ps, i - 1) && SparesAt(states, ops, i - 1);
      TrueHeaderCopies(states[i - 1], ops[i - 1]);
      VStepInv(states[i - 1], ops[i - 1]);
      StepKeepsHeaders(states[i - 1], ops[i - 1]);
    }
  }

  // ---------------------------------------------------------------- contents along a run

  /** A live block that no call of a run names stays live where it is and keeps its intact bytes, for
      arbitrary sizes of all blocks; all of its bytes if it ends safely. */
  lemma {:induction false} VBystanderSurvives(states: seq<State>, ops: seq<VOp>, ps: seq<nat>, p: nat, i: nat)
    requires IsVRun(states, ops, ps) && VInv(states[0]) && i <= |ops|
    requires p in states[0].live && forall k: nat :: k < i ==> !VTouches(ops[k], p)
    ensures KeptIntact(states[0], states[i], p)
    ensures SafeEnd(states[0].w.abi, p + states[0].live[p].size) ==> KeptBlock(states[0], states[i], p)
  {
    if i > 0 {
      VBystanderSurvives(states, ops, ps, p, i - 1);
      VRunInv(states, ops, ps, i - 1);
      assert VCallAt(states, ops, ps, i - 1) && CopyAt(states, ops, i - 1);
      StepKeepsIntact(states[i - 1], ops[i - 1], p);
      IntactFits(states[0], p);
      AgreeLoad(states[i].w.mem, states[0].w.mem, p, Intact(states[0], p));
    }
  }

  ghost predicate VHeapStepAt(heaps: seq<Heap>, ops: seq<VOp>, ps: seq<nat>, i: nat)
    requires i < |ops| && |heaps| == |ops| + 1 && |ps| == |ops|
  {
    VHeapStep(heaps[i], ops[i], ps[i], heaps[i + 1])
  }

  ghost predicate IsVHeapRun(heaps: seq<Heap>, ops: seq<VOp>, ps: seq<nat>) {
    && |heaps| == |ops| + 1 && |ps| == |ops|
    && forall i: nat {:trigger VHeapStepAt(heaps, ops, ps, i)} :: i < |ops| ==> VHeapStepAt(heaps, ops, ps, i)
  }

  ghost predicate SafeAt(abi: Abi, ops: seq<VOp>, ps: seq<nat>, i: nat)
    requires abi.maxAlign > 0 && i < |ops| && |ps| == |ops|
  {
    SafeAnswer(abi, ops[i], ps[i])
  }

  /** Every block answered along a run ends safely. */
  ghost predicate SafeRun(abi: Abi, ops: seq<VOp>, ps: seq<nat>)
    requires abi.maxAlign > 0 && |ps| == |ops|
  {
    forall i: nat {:trigger SafeAt(abi, ops, ps, i)} :: i < |ops| ==> SafeAt(abi, ops, ps, i)
  }

  /** If all ends are safe, headers are true all along a run, and every copy stays inside its old block. */
  lemma {:induction false} VRunSafe(states: seq<State>, ops: seq<VOp>, ps: seq<nat>, i: nat)
    requires IsVCalls(states, ops, ps) && VSafe(states[0]) && SafeRun(states[0].w.abi, ops, ps) && i <= |ops|
    ensures VSafe(states[i]) && states[i].w.abi == states[0].w.abi
    ensures i < |ops| ==> CopyAt(states, ops, i) && InsideAt(states, ops, i)
  {
    if i > 0 {
      VRunSafe(states, ops, ps, i - 1);
      assert VCallAt(states, ops, ps, i - 1) && CopyAt(states, ops, i - 1);
      assert SafeAt(states[0].w.abi, ops, ps, i - 1);
      StepAbi(states[i - 1], ops[i - 1]);
      StepSafe(states[i - 1], ops[i - 1]);
    }
    if i < |ops| {
      assert VCallAt(states, ops, ps, i);
      SafeHeaders(states[i]);
      TrueHeaderCopies(states[i], ops[i]);
    }
  }

  /** Protocol runs in which all ends are safe refine an abstract realloc heap, whatever their resets keep. */
  lemma VRunRefines(states: seq<State>, ops: seq<VOp>, ps: seq<nat>)
    requires IsVCalls(states, ops, ps) && VSafe(states[0]) && SafeRun(states[0].w.abi, ops, ps)
    ensures IsVHeapRun(seq(|states|, i requires 0 <= i < |states| => HeapOf(states[i])), ops, ps)
  {
    var heaps := seq(|states|, i requires 0 <= i < |states| => HeapOf(states[i]));
    forall i: nat | i < |ops| ensures VHeapStepAt(heaps, ops, ps, i) {
      VRunSafe(states, ops, ps, i);
      assert VCallAt(states, ops, ps, i) && CopyAt(states, ops, i);
      VStepRefines(states[i], ops[i]);
    }
  }

  // ---------------------------------------------------------------- runs whose resets keep nothing

  predicate VKeepsNone(op: VOp) {
    match op
    case Rewind(count) => count == 0
    case RewindPercent(percent) => percent == 0
    case _ => true
  }

  ghost predicate AlignedBlock(s: State, p: nat)
    requires s.w.abi.Ok()
  {
    Aligned(p, s.w.abi.maxAlign)
  }

  /** Every block is aligned for any type, and so is the next one. */
  ghost predicate VAligned(s: State) {
    && s.w.abi.Ok()
    && (s.w.ar.pages != [] ==> Aligned(s.w.ar.current + s.w.abi.wordBytes, s.w.abi.maxAlign))
    && forall p {:trigger AlignedBlock(s, p)} :: p in s.live ==> AlignedBlock(s, p)
  }

  lemma PlaceAligned(w: World, size: nat, base: nat)
    requires VCursorOk(w) && size > 0 && HeaderAnswer(w, size, base)
    requires w.ar.pages != [] ==> Aligned(w.ar.current + w.abi.wordBytes, w.abi.maxAlign)
    ensures var (v, p) := HeaderAlloc(w, size, base);
      && v.abi == w.abi
      && Aligned(p, w.abi.maxAlign) && Aligned(v.ar.current + w.abi.wordBytes, w.abi.maxAlign)
  {
    PlaceStartAligned(w, size, base);
    CursorFollows(w, size, base);
  }

  lemma PlaceStartAligned(w: World, size: nat, base: nat)
    requires VCursorOk(w) && size > 0 && HeaderAnswer(w, size, base)
    requires w.ar.pages != [] ==> Aligned(w.ar.current + w.abi.wordBytes, w.abi.maxAlign)
    ensures var v := HeaderPlace(w, size, base);
      v.abi == w.abi && Aligned(v.ar.current + w.abi.wordBytes, w.abi.maxAlign)
  {
    if HeaderOverruns(w, size) {
      OpenedFits(w, size, base);
    } else {
      assert w.ar.pages != [];
    }
  }

  lemma AllocAligned(s: State, size: nat, base: nat)
    requires VInv(s) && VAllocOk(s, size, base) && VAligned(s)
    ensures VAligned(VAlloc(s, size, base).0)
  {
    var t := VAlloc(s, size, base).0;
    PlaceAligned(s.w, size, base);
    forall p | p in t.live ensures AlignedBlock(t, p) {
      assert p in s.live ==> AlignedBlock(s, p);
    }
  }

  /** Neither bytes nor fewer blocks matter. */
  lemma SameAligned(s: State, t: State)
    requires VAligned(s) && t.w.abi == s.w.abi && t.w.ar == s.w.ar
    requires forall p :: p in t.live ==> p in s.live
    ensures VAligned(t)
  {
    forall p | p in t.live ensures AlignedBlock(t, p) {
      assert AlignedBlock(s, p);
    }
  }

  lemma ReallocAligned(s: State, block: nat, total: nat, base: nat)
    requires VInv(s) && VReallocOk(s, block, total, base) && VAligned(s)
    ensures VAligned(VRealloc(s, block, total, base).0)
  {
    var t := VRealloc(s, block, total, base).0;
    if block == 0 {
      AllocAligned(s, total, base);
    } else if VExtends(s.w, block, total) {
      AlignUpAligned(block + total, s.w.abi.maxAlign);
      forall p | p in t.live ensures AlignedBlock(t, p) {
        assert AlignedBlock(s, p);
      }
    } else {
      AllocAligned(s, total, base);
      SameAligned(VAlloc(s, total, base).0, t);
    }
  }

  lemma FreeAligned(s: State, block: nat)
    requires VInv(s) && VAligned(s) && (block == 0 || block > s.w.abi.wordBytes)
    ensures VAligned(VFree(s, block))
  {
    var t := VFree(s, block);
    if block != 0 && IsLast(s.w, block) {
      assert block in s.live && AlignedBlock(s, block);
      forall p | p in t.live ensures AlignedBlock(t, p) {
        assert AlignedBlock(s, p);
      }
    } else {
      SameAligned(s, t);
    }
  }

  /** Steps whose resets keep nothing keep all blocks aligned, for arbitrary sizes. */
  lemma StepAligned(s: State, op: VOp)
    requires VInv(s) && VOpOk(s, op) && VAligned(s) && VKeepsNone(op)
    ensures VAligned(VStep(s, op).0)
  {
    match op
    case Calloc(n, size, base) =>
      AllocAligned(s, n * size, base);
      SameAligned(VAlloc(s, n * size, base).0, VStep(s, op).0);
    case Reallocarray(block, n, size, base) => ReallocAligned(s, block, n * size, base);
    case Free(block) => FreeAligned(s, block);
    case Write(_, _, _) => SameAligned(s, VStep(s, op).0);
    case Elsewhere(_) => SameAligned(s, VStep(s, op).0);
    case Rewind(_) =>
    case RewindPercent(_) =>
  }

  /** Where resets keep nothing every block is aligned for any type, for arbitrary sizes. */
  lemma {:induction false} VRunAligned(states: seq<State>, ops: seq<VOp>, ps: seq<nat>, i: nat)
    requires IsVRun(states, ops, ps) && VInv(states[0]) && VAligned(states[0]) && i <= |ops|
    requires forall k: nat :: k < i ==> VKeepsNone(ops[k])
    ensures VAligned(states[i])
  {
    if i > 0 {
      VRunAligned(states, ops, ps, i - 1);
      VRunInv(states, ops, ps, i - 1);
      assert VCallAt(states, ops, ps, i - 1) && CopyAt(states, ops, i - 1);
      StepAligned(states[i - 1], ops[i - 1]);
    }
  }

  /** The size a call asks for is a safe end when counted from an aligned address. */
  predicate SafeRequest(abi: Abi, op: VOp)
    requires abi.maxAlign > 0
  {
    SafeAnswer(abi, op, 0)
  }

  lemma AnswerFromAligned(abi: Abi, op: VOp, p: nat)
    requires abi.Ok() && SafeRequest(abi, op) && (op.Calloc? || op.Reallocarray? ==> Aligned(p, abi.maxAlign))
    ensures SafeAnswer(abi, op, p)
  {
    match op
    case Calloc(n, size, _) => SizeDecides(abi, p, n * size);
    case Reallocarray(_, n, size, _) => SizeDecides(abi, p, n * size);
    case _ =>
  }

  lemma AnswerLive(s: State, op: VOp)
    requires VInv(s) && VOpOk(s, op) && (op.Calloc? || op.Reallocarray?)
    ensures VStep(s, op).1 in VStep(s, op).0.live
  {
    if op.Reallocarray? && op.block != 0 && !VExtends(s.w, op.block, op.n * op.size) {
      VAllocPairs(s, op.n * op.size, op.base);
    }
  }

  lemma SafeRequestStep(s: State, op: VOp)
    requires VSafe(s) && VAligned(s) && VOpArgs(s, op) && VKeepsNone(op) && SafeRequest(s.w.abi, op)
    ensures var (t, p) := VStep(s, op);
      VSafe(t) && VAligned(t) && t.w.abi == s.w.abi && SafeAnswer(s.w.abi, op, p)
  {
    SafeHeaders(s);
    TrueHeaderCopies(s, op);
    StepAligned(s, op);
    if op.Calloc? || op.Reallocarray? {
      AnswerLive(s, op);
      assert AlignedBlock(VStep(s, op).0, VStep(s, op).1);
    }
    StepAbi(s, op);
    AnswerFromAligned(s.w.abi, op, VStep(s, op).1);
    StepSafe(s, op);
  }

  lemma StepAbi(s: State, op: VOp)
    requires s.w.abi.Ok() && VOpArgs(s, op)
    ensures VStep(s, op).0.w.abi == s.w.abi
  {
  }

  /** Where resets keep nothing, safe sizes make a safe run. */
  lemma {:induction false} SafeRequestsSafe(states: seq<State>, ops: seq<VOp>, ps: seq<nat>, i: nat)
    requires IsVCalls(states, ops, ps) && VSafe(states[0]) && VAligned(states[0]) && i <= |ops|
    requires forall k: nat {:trigger ops[k]} :: k < |ops| ==> VKeepsNone(ops[k]) && SafeRequest(states[0].w.abi, ops[k])
    ensures VSafe(states[i]) && VAligned(states[i]) && states[i].w.abi == states[0].w.abi
    ensures i > 0 ==> SafeAt(states[0].w.abi, ops, ps, i - 1)
  {
    if i > 0 {
      SafeRequestsSafe(states, ops, ps, i - 1);
      assert VCallAt(states, ops, ps, i - 1);
      SafeRequestStep(states[i - 1], ops[i - 1]);
    }
  }

  /** Protocol runs from an initialised arena whose resets keep nothing and whose sizes are safe refine an
      abstract realloc heap. */
  lemma SafeSizesRefine(states: seq<State>, ops: seq<VOp>, ps: seq<nat>)
    requires IsVCalls(states, ops, ps) && StartsFresh(states[0])
    requires states[0].w.abi.maxAlign > 0
    requires forall k: nat {:trigger ops[k]} :: k < |ops| ==> VKeepsNone(ops[k]) && SafeRequest(states[0].w.abi, ops[k])
    ensures IsVHeapRun(seq(|states|, i requires 0 <= i < |states| => HeapOf(states[i])), ops, ps)
  {
    FreshSafe(states[0]);
    forall i: nat | i < |ops| ensures SafeAt(states[0].w.abi, ops, ps, i) {
      SafeRequestsSafe(states, ops, ps, i + 1);
    }
    VRunRefines(states, ops, ps);
  }

  lemma FreshSafe(s: State)
    requires StartsFresh(s)
    ensures VSafe(s) && VAligned(s)
  {
  }

  // ---------------------------------------------------------------- reachable states

  ghost predicate VReachable(s: State) {
    exists states: seq<State>, ops: seq<VOp>, ps: seq<nat> ::
      IsVRun(states, ops, ps) && StartsFresh(states[0]) && states[|ops|] == s
  }

  lemma VReachableInv(s: State)
    requires VReachable(s)
    ensures VInv(s)
  {
    var states: seq<State>, ops: seq<VOp>, ps: seq<nat> :|
      IsVRun(states, ops, ps) && StartsFresh(states[0]) && states[|ops|] == s;
    FreshSafe(states[0]);
    VRunInv(states, ops, ps, |ops|);
  }

  /** Spatial safety for arbitrary sizes and all resets: blocks are aligned to words, share no byte, and lie
      with their headers inside one outstanding page; a header meets no other header and nothing that
      counts as intact of another block. */
  lemma VSpatialSafety(s: State, p: nat, q: nat)
    requires VReachable(s) && p in s.live && q in s.live
    ensures var b := s.live[p];
      var word := s.w.abi.wordBytes;
      && s.w.abi.Ok() && Aligned(p, word)
      && b.page < |s.w.ar.pages| && s.w.ar.pages[b.page] in s.w.owned
      && s.w.ar.pages[b.page] + word <= p
      && p + b.size <= s.w.ar.pages[b.page] + s.w.owned[s.w.ar.pages[b.page]]
      && Mapped(s.w.mem, p - word, word + b.size)
      && (p != q ==>
            && Apart(p, b.size, q, s.live[q].size) && q > word
            && Apart(p - word, word + Intact(s, p), q - word, word + Intact(s, q)))
  {
    VReachableInv(s);
    VBlock(s, p);
    ExtentMapped(s, p);
    StartIsWordAligned(s.w, p, s.live[p].page);
    if p != q {
      assert PairApart(s, p, q);
      ExtentsApart(s, p, q);
    }
  }

  /** Which blocks are aligned for any type, for arbitrary sizes and all resets: all but one that starts a
      word into the first page, where words are shorter than the alignment. */
  lemma VAlignmentExact(s: State, p: nat)
    requires VReachable(s) && p in s.live
    ensures s.w.abi.Ok() && s.live[p].page < |s.w.ar.pages|
    ensures Aligned(p, s.w.abi.maxAlign) <==>
      !(s.live[p].page == 0 && p == s.w.ar.pages[0] + s.w.abi.wordBytes && s.w.abi.wordBytes < s.w.abi.maxAlign)
  {
    VReachableInv(s);
    VBlock(s, p);
    assert PageOk(s.w, 0);
    AddMultiples(s.w.ar.pages[0], s.w.abi.wordBytes, s.w.abi.maxAlign);
  }

  /** The in-place path is sound for arbitrary sizes and all resets: a live block whose header matches
      `_last` is on the current page, and no other live block has a byte from its start to the sentinel. */
  lemma VFastPathSound(s: State, p: nat, q: nat)
    requires VReachable(s) && p in s.live && q in s.live && q != p
    requires IsLast(s.w, p) && p <= s.w.ar.sentinel
    ensures s.live[p].page == s.w.ar.pageIndex < |s.w.ar.pages|
    ensures Apart(p, s.w.ar.sentinel - p, q, s.live[q].size)
    ensures s.w.ar.sentinel <= s.w.ar.pages[s.w.ar.pageIndex] + s.w.PageBytes(s.w.ar.pageIndex)
  {
    VReachableInv(s);
    VTopIsFree(s, p, q);
  }

  lemma VTopIsFree(s: State, p: nat, q: nat)
    requires VInv(s) && p in s.live && q in s.live && q != p
    requires IsLast(s.w, p) && p <= s.w.ar.sentinel
    ensures s.live[p].page == s.w.ar.pageIndex < |s.w.ar.pages|
    ensures Apart(p, s.w.ar.sentinel - p, q, s.live[q].size)
    ensures s.w.ar.sentinel <= s.w.ar.pages[s.w.ar.pageIndex] + s.w.PageBytes(s.w.ar.pageIndex)
  {
    VBlock(s, p);
    VResizedApart(s, p, s.w.ar.sentinel - p, q);
  }

  /** Page conservation for arbitrary sizes and all resets. */
  lemma VPagesConserved(s: State)
    requires VReachable(s)
    ensures s.w.owned.Keys == PageSet(s.w.ar.pages)
    ensures forall i: nat, j: nat :: i < j < |s.w.ar.pages| ==> s.w.ar.pages[i] != s.w.ar.pages[j]
  {
    VReachableInv(s);
    PagesAccounted(s.w);
  }

  /** Bytes a malloc hands out that were neither handed out nor used as a header since the last
      reset read zero, on fresh, recycled and kept oversize pages. */
  lemma VFirstGrantIsZero(s: State, size: nat, base: nat, k: nat)
    requires VReachable(s) && s.w.abi.Ok() && VAllocOk(s, size, base) && k < size
    requires VAlloc(s, size, base).1 + k !in s.granted
    ensures Peek(VAlloc(s, size, base).0.w.mem, VAlloc(s, size, base).1 + k) == 0
  {
    VReachableInv(s);
    UngrantedIsZero(s, size, base, k);
  }

  lemma UngrantedIsZero(s: State, size: nat, base: nat, k: nat)
    requires VInv(s) && VAllocOk(s, size, base) && k < size
    requires VAlloc(s, size, base).1 + k !in s.granted
    ensures Peek(VAlloc(s, size, base).0.w.mem, VAlloc(s, size, base).1 + k) == 0
  {
    PlaceFits(s.w, size, base);
    PlaceIsZero(s, size, base);
    var v := HeaderPlace(s.w, size, base);
    var a := VAlloc(s, size, base).1 + k;
    assert v.ar.pages[v.ar.pageIndex] <= a < v.ar.sentinel;
  }

  // ---------------------------------------------------------------- churn at the top

  /** Allocate and free `n` times over. */
  function Churn(s: State, size: nat, bases: seq<nat>): (State, seq<nat>)
    requires s.w.abi.Ok()
    decreases |bases|
  {
    if bases == [] then (s, [])
    else
      var (t, p) := VAlloc(s, size, bases[0]);
      var (u, ps) := Churn(VFree(t, if p > s.w.abi.wordBytes then p else 0), size, bases[1..]);
      (u, [p] + ps)
  }

  /** Allocation where there is room, twice in a row from the same cursor. */
  lemma SameCursor(s: State, u: State, size: nat, base: nat, other: nat)
    requires VInv(s) && VAllocOk(s, size, base)
    requires var (t, p) := VAlloc(s, size, base); p > s.w.abi.wordBytes && u == VFree(t, p)
    ensures !HeaderOverruns(u.w, size)
    ensures VAlloc(u, size, other).1 == VAlloc(s, size, base).1
    ensures VAlloc(u, size, other).0.w.mem == u.w.mem
    ensures VAlloc(u, size, other).0.w.ar == VAlloc(s, size, base).0.w.ar
  {
    var v := HeaderPlace(s.w, size, base);
    assert v.abi == s.w.abi && !HeaderOverruns(v, size) by {
      PlaceFits(s.w, size, base);
    }
    RoomAgain(v, u.w, size, other);
  }

  /** From a cursor with room, once more after the block was freed. */
  lemma RoomAgain(v: World, x: World, size: nat, other: nat)
    requires v.abi.Ok() && !HeaderOverruns(v, size) && x.abi == v.abi && x.ar == v.ar.(last := 0)
    requires x.mem == Store(v.mem, v.ar.current, Encode(size, v.abi.wordBytes))
    ensures !HeaderOverruns(x, size)
    ensures HeaderAlloc(x, size, other).1 == v.ar.current + v.abi.wordBytes
    ensures HeaderAlloc(x, size, other).0.mem == x.mem
    ensures HeaderAlloc(x, size, other).0.ar ==
      v.ar.(current := CursorAfter(v.abi, v.ar.current + v.abi.wordBytes + size), last := v.ar.current)
  {
    StoreTwice(v.mem, v.ar.current, Encode(size, v.abi.wordBytes));
  }

  lemma StoreTwice(mem: Bytes, p: nat, data: seq<Byte>)
    ensures Store(Store(mem, p, data), p, data) == Store(mem, p, data)
  {
  }

  /** After one malloc and free, malloc returns the same address without opening a page, and free
      leads back to the same state. */
  lemma FreeThenAlloc(s: State, size: nat, base: nat, other: nat)
    requires VInv(s) && VAllocOk(s, size, base)
    ensures VAlloc(s, size, base).1 > s.w.abi.wordBytes
    ensures var (t, p) := VAlloc(s, size, base);
      var u := VFree(t, p);
      && VAlloc(u, size, other).1 == p
      && VFree(VAlloc(u, size, other).0, p) == u
      && u.live == s.live
  {
    var (t, p) := VAlloc(s, size, base);
    VAllocNew(s, size, base);
    VAllocPairs(s, size, base);
    var u := VFree(t, p);
    SameCursor(s, u, size, base, other);
    var t2 := VAlloc(u, size, other).0;
    assert u.live == s.live;
    assert VFree(t2, p).live == u.live;
    assert t2.granted == u.granted;
  }

  /** Top-of-stack churn: however often malloc and free alternate, every malloc returns the address
      of the first, at most one page is opened in all, and the live blocks are those before. */
  lemma {:induction false} ChurnIsFree(s: State, size: nat, base: nat, bases: seq<nat>)
    requires VInv(s) && VAllocOk(s, size, base)
    ensures VAlloc(s, size, base).1 > s.w.abi.wordBytes
    ensures var (t, p) := VAlloc(s, size, base);
      var u := VFree(t, p);
      && Churn(u, size, bases).0 == u
      && |Churn(u, size, bases).1| == |bases|
      && (forall i: nat :: i < |bases| ==> Churn(u, size, bases).1[i] == p)
      && u.live == s.live
      && |u.w.ar.pages| <= |s.w.ar.pages| + 1
    decreases |bases|
  {
    FreeThenAlloc(s, size, base, if bases == [] then 0 else bases[0]);
    if bases != [] {
      ChurnIsFree(s, size, base, bases[1..]);
    }
  }

  /** Freeing the last block a second time, and freeing any block but the last, changes neither the
      arena nor memory. */
  lemma FreeIsIdempotent(s: State, block: nat)
    requires VInv(s) && block > s.w.abi.wordBytes
    ensures VFree(VFree(s, block), block) == VFree(s, block)
    ensures !IsLast(s.w, block) ==> VFree(s, block).w == s.w
  {
  }

  // ---------------------------------------------------------------- resets that keep pages

  /** After a reset that keeps a page the cursor is the bare page start. The first block, if it fits the page,
      lies one word into it; if not, it opens a page of its own. So it is aligned exactly when it does not
      fit, or a word is as long as the alignment. */
  lemma KeptPageAlignment(s: State, count: nat, size: nat, base: nat)
    requires VInv(s) && s.w.ar.pages != [] && count > 0
    requires VAllocOk(Reset(s, count), size, base)
    ensures var p := VAlloc(Reset(s, count), size, base).1;
      var fits := s.w.abi.wordBytes + size <= s.w.ar.pageSize;
      && p == (if fits then s.w.ar.pages[0] + s.w.abi.wordBytes else base + s.w.abi.maxAlign)
      && (Aligned(p, s.w.abi.maxAlign) <==> !fits || s.w.abi.wordBytes == s.w.abi.maxAlign)
  {
    var abi := s.w.abi;
    assert PageOk(s.w, 0);
    ResetPages(s.w, count);
    if abi.wordBytes + size <= s.w.ar.pageSize {
      AddMultiples(s.w.ar.pages[0], abi.wordBytes, abi.maxAlign);
    } else {
      NextMultiple(base, abi.maxAlign);
    }
  }
}
