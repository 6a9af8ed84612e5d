/** reallocarray, the operations of a protocol client, and what every one of them keeps. */
module VtableSteps {
  import opened Words
  import opened Memory
  import opened ArenaModel
  import opened ArenaState
  import opened ArenaBlocks
  import opened VtableRuns

  // ---------------------------------------------------------------- reallocarray

  /** The copy of the moving path is a defined memcpy: its source is mapped and does not overlap the new
      block. The size copied is the one read from the header, so it may reach beyond the old block. */
  ghost predicate CopyDefined(s: State, block: nat, total: nat, base: nat)
    requires s.w.abi.Ok() && (block == 0 || block in s.live)
  {
    || block == 0 || VExtends(s.w, block, total)
    || (var (t, p) := VAlloc(s, total, base);
        var n := Min(HeaderOf(s.w, block), total);
        Mapped(t.w.mem, block, n) && Apart(p, n, block, n))
  }

  /** The copy of the moving path reads bytes of the old block only. */
  ghost predicate CopyInside(s: State, block: nat, total: nat)
    requires block == 0 || block in s.live
  {
    block == 0 || VExtends(s.w, block, total) || Min(HeaderOf(s.w, block), total) <= s.live[block].size
  }

  /** What callers of the allocator protocol owe: a positive product, and NULL or a live block. */
  ghost predicate VReallocArgs(s: State, block: nat, total: nat, base: nat) {
    && total > 0 && s.w.abi.maxAlign > 0
    && (block == 0 || (block in s.live && block > s.w.abi.wordBytes))
    && (block == 0 || !VExtends(s.w, block, total) ==> VAllocOk(s, total, base))
  }

  /** ... and a defined copy, which is more than they can see: the header may have been overwritten. */
  ghost predicate VReallocOk(s: State, block: nat, total: nat, base: nat) {
    VReallocArgs(s, block, total, base) && s.w.abi.Ok() && CopyDefined(s, block, total, base)
  }

  /** Every reallocarray keeps the invariant, for arbitrary sizes. */
  lemma VReallocInv(s: State, block: nat, total: nat, base: nat)
    requires VInv(s) && VReallocOk(s, block, total, base)
    ensures VInv(VRealloc(s, block, total, base).0)
  {
    if block == 0 {
      VAllocInv(s, total, base);
    } else {
      if VExtends(s.w, block, total) {
        VResizedInv(s, block, total);
      } else {
        VMovedInv(s, block, total, base, Min(HeaderOf(s.w, block), total));
      }
    }
  }

  lemma VMovedInv(s: State, block: nat, total: nat, base: nat, n: nat)
    requires VInv(s) && VAllocOk(s, total, base) && block in s.live && n <= total
    ensures var (t, p) := VAlloc(s, total, base);
      VInv(Retired(Poke(t, p, Load(t.w.mem, block, n)), block))
  {
    var (t, p) := VAlloc(s, total, base);
    VAllocInv(s, total, base);
    VAllocPairs(s, total, base);
    CopiedInv(t, p, block, Load(t.w.mem, block, n));
  }

  /** Filling the last block and abandoning another one. */
  lemma CopiedInv(t: State, p: nat, block: nat, data: seq<Byte>)
    requires VInv(t) && p in t.live && IsLast(t.w, p) && p != block && |data| <= t.live[p].size
    ensures VInv(Retired(Poke(t, p, data), block))
  {
    VFillInv(t, p, data);
    VRetiredInv(Poke(t, p, data), block);
  }

  /** A copy that stays inside the old block is defined. */
  lemma InsideIsDefined(s: State, block: nat, total: nat, base: nat)
    requires VInv(s) && VReallocArgs(s, block, total, base) && CopyInside(s, block, total)
    ensures VReallocOk(s, block, total, base)
  {
    if block != 0 && !VExtends(s.w, block, total) {
      var (t, p) := VAlloc(s, total, base);
      VAllocInv(s, total, base);
      VAllocPairs(s, total, base);
      BlockMapped(t, block);
      assert PairApart(t, p, block);
    }
  }

  // ---------------------------------------------------------------- operations

  /** One step of a client, or of the rest of the machine. reallocarray of NULL is malloc; `base` is the
      answer of the system should a page be needed. */
  datatype VOp =
    | Calloc(n: nat, size: nat, base: nat)
    | Reallocarray(block: nat, n: nat, size: nat, base: nat)
    | Free(block: nat)
    | Write(block: nat, offset: nat, value: Byte)
    | Rewind(count: nat)
    | RewindPercent(percent: nat)
    | Elsewhere(mem: Bytes)

  /** What the protocol asks of clients. */
  ghost predicate VOpArgs(s: State, op: VOp) {
    match op
    case Calloc(n, size, base) => n * size > 0 && VAllocOk(s, n * size, base)
    case Reallocarray(block, n, size, base) => VReallocArgs(s, block, n * size, base)
    case Free(block) => block == 0 || block > s.w.abi.wordBytes
    case Write(block, offset, _) => block in s.live && offset < s.live[block].size
    case Rewind(_) => true
    case RewindPercent(_) => true
    case Elsewhere(mem) => Untouched(s.w, mem)
  }

  ghost predicate VOpOk(s: State, op: VOp) {
    VOpArgs(s, op) && (op.Reallocarray? ==> s.w.abi.Ok() && CopyDefined(s, op.block, op.n * op.size, op.base))
  }

  function VStep(s: State, op: VOp): (State, nat)
    requires s.w.abi.Ok() && VOpArgs(s, op)
  {
    match op
    case Calloc(n, size, base) => VCalloc(s, n * size, base)
    case Reallocarray(block, n, size, base) => VRealloc(s, block, n * size, base)
    case Free(block) => (VFree(s, block), 0)
    case Write(block, offset, value) => (Poke(s, block + offset, [value]), 0)
    case Rewind(count) => (Reset(s, count), 0)
    case RewindPercent(percent) => (Reset(s, KeepCount(|s.w.ar.pages|, percent)), 0)
    case Elsewhere(mem) => (WithMemory(s, mem), 0)
  }

  lemma CallocInv(s: State, total: nat, base: nat, data: seq<Byte>)
    requires VInv(s) && VAllocOk(s, total, base) && |data| == total
    ensures var (t, p) := VAlloc(s, total, base); VInv(Poke(t, p, data))
  {
    var (t, p) := VAlloc(s, total, base);
    VAllocInv(s, total, base);
    VFillInv(t, p, data);
  }

  /** Every step keeps the spatial invariant, for arbitrary sizes and all resets. */
  lemma VStepInv(s: State, op: VOp)
    requires VInv(s) && VOpOk(s, op)
    ensures VInv(VStep(s, op).0)
  {
    match op
    case Calloc(n, size, base) => CallocInv(s, n * size, base, Repeat(0, n * size));
    case Reallocarray(block, n, size, base) => VReallocInv(s, block, n * size, base);
    case Free(block) => VFreeInv(s, block);
    case Write(block, offset, value) => VPokeInBlock(s, block, offset, [value]);
    case Rewind(count) => VResetInv(s, count);
    case RewindPercent(percent) => VResetInv(s, KeepCount(|s.w.ar.pages|, percent));
    case Elsewhere(mem) => VElsewhereInv(s, mem);
  }

  /** The operations that name a block, or all blocks. */
  predicate VTouches(op: VOp, p: nat) {
    match op
    case Reallocarray(block, _, _, _) => block == p
    case Free(block) => block == p
    case Write(block, _, _) => block == p
    case Rewind(_) => true
    case RewindPercent(_) => true
    case _ => false
  }
}
