/** What vtable blocks hold. A block keeps its intact bytes whatever the sizes of the others; when every
    block ends safely, headers stay true, and the calls are steps of an abstract realloc heap. */
module VtableContents {
  import opened Words
  import opened Memory
  import opened ArenaModel
  import opened ArenaState
  import opened ArenaBlocks
  import opened VtableRuns
  import opened VtableSteps
  import opened VtableHeaders

  ghost predicate SafeBlock(s: State, p: nat)
    requires p in s.live && s.w.abi.Ok()
  {
    SafeEnd(s.w.abi, p + s.live[p].size) && TrueHeader(s, p)
  }

  /** Every live block ends where a whole header fits, and has a true header. */
  ghost predicate VSafe(s: State) {
    VInv(s) && forall p {:trigger SafeBlock(s, p)} :: p in s.live ==> SafeBlock(s, p)
  }

  lemma SafeHeaders(s: State)
    requires VSafe(s)
    ensures HeadersTrue(s)
  {
    forall p | p in s.live ensures TrueHeader(s, p) {
      assert SafeBlock(s, p);
    }
  }

  /** If all ends are safe, live blocks with their headers share no byte. */
  lemma SafeExtents(s: State, p: nat, q: nat)
    requires VSafe(s) && p in s.live && q in s.live && p != q
    ensures p > s.w.abi.wordBytes && q > s.w.abi.wordBytes
    ensures Apart(p - s.w.abi.wordBytes, s.w.abi.wordBytes + s.live[p].size,
                  q - s.w.abi.wordBytes, s.w.abi.wordBytes + s.live[q].size)
  {
    assert SafeBlock(s, p) && SafeBlock(s, q);
    IntactFits(s, p);
    IntactFits(s, q);
    ExtentsApart(s, p, q);
  }

  lemma SafeSpares(s: State, op: VOp)
    requires VSafe(s) && VOpOk(s, op)
    ensures SparesHeaders(s, op)
  {
    if op.Write? {
      forall q | q in s.live ensures !(q - s.w.abi.wordBytes <= op.block + op.offset < q) {
        if q != op.block {
          SafeExtents(s, op.block, q);
        }
      }
    }
  }

  // ---------------------------------------------------------------- other blocks

  /** A block that ends safely keeps all its bytes through every step that does not name it, whatever the
      sizes of the other blocks. */
  lemma StepKeepsBlock(s: State, op: VOp, q: nat)
    requires VInv(s) && VOpOk(s, op) && q in s.live && !VTouches(op, q)
    requires SafeEnd(s.w.abi, q + s.live[q].size)
    ensures KeptBlock(s, VStep(s, op).0, q)
  {
    StepKeepsIntact(s, op, q);
    IntactFits(s, q);
    AgreeLoad(VStep(s, op).0.w.mem, s.w.mem, q, s.live[q].size);
  }

  lemma StepKeeps(s: State, op: VOp, gone: set<nat>)
    requires VSafe(s) && VOpOk(s, op) && forall q :: q in s.live && VTouches(op, q) ==> q in gone
    ensures Keeps(s, VStep(s, op).0, gone)
  {
    forall q | q in s.live && q !in gone ensures KeptBlock(s, VStep(s, op).0, q) {
      assert SafeBlock(s, q);
      StepKeepsBlock(s, op, q);
    }
  }

  // ---------------------------------------------------------------- the block a call answers

  lemma VBlockMapped(t: State, p: nat)
    requires VInv(t) && p in t.live
    ensures Mapped(t.w.mem, p, t.live[p].size) && BlocksApart(t)
  {
    ExtentMapped(t, p);
  }

  /** A filled block holds what it was filled with. */
  lemma FilledBlock(s: State, total: nat, base: nat, data: seq<Byte>)
    requires VInv(s) && VAllocOk(s, total, base) && |data| <= total
    ensures var (t, p) := VAlloc(s, total, base);
      && p !in s.live && t.live[p].size == total && Contents(Poke(t, p, data), p)[..|data|] == data
  {
    var (t, p) := VAlloc(s, total, base);
    VAllocInv(s, total, base);
    VAllocPairs(s, total, base);
    VBlockMapped(t, p);
    PrefixStored(t.w.mem, p, data, total);
  }

  lemma VResizedPrefix(s: State, p: nat, size: nat)
    requires s.w.abi.Ok() && p in s.live && p > s.w.abi.wordBytes
    ensures var n := Min(s.live[p].size, size);
      Contents(VResized(s, p, size), p)[..n] == Contents(s, p)[..n]
  {
    StoreApart(s.w.mem, p - s.w.abi.wordBytes, Encode(size, s.w.abi.wordBytes), p, Min(s.live[p].size, size));
  }

  lemma MovedPrefix(s: State, block: nat, total: nat, base: nat, n: nat)
    requires VInv(s) && VAllocOk(s, total, base) && block in s.live && n <= total
    ensures var (t, p) := VAlloc(s, total, base);
      var m := Min(Intact(s, block), n);
      && p !in s.live
      && Contents(Poke(t, p, Load(t.w.mem, block, n)), p)[..m] == Contents(s, block)[..m]
  {
    var (t, p) := VAlloc(s, total, base);
    var data := Load(t.w.mem, block, n);
    var m := Min(Intact(s, block), n);
    FilledBlock(s, total, base, data);
    AllocKeepsExtent(s, total, base, block);
    AgreeLoad(t.w.mem, s.w.mem, block, m);
    assert data[..m] == Load(t.w.mem, block, m);
    assert Contents(Poke(t, p, data), p)[..m] == data[..m];
  }

  /** Both paths of reallocarray keep the intact part of the common prefix, for arbitrary sizes, if the
      block's own header is true. */
  lemma ReallocPrefix(s: State, block: nat, total: nat, base: nat)
    requires VInv(s) && VReallocOk(s, block, total, base) && block != 0 && TrueHeader(s, block)
    ensures var (t, p) := VRealloc(s, block, total, base);
      var m := Min(Intact(s, block), total);
      && t.live.Keys == s.live.Keys - {block} + {p} && t.live[p].size == total
      && (p != block ==> p !in s.live)
      && Contents(t, p)[..m] == Contents(s, block)[..m]
  {
    VBlock(s, block);
    if VExtends(s.w, block, total) {
      VResizedPrefix(s, block, total);
    } else {
      MovedPrefix(s, block, total, base, Min(HeaderOf(s.w, block), total));
    }
  }

  lemma ReallocKeeps(s: State, block: nat, total: nat, base: nat)
    requires VSafe(s) && VReallocOk(s, block, total, base)
    ensures Keeps(s, VRealloc(s, block, total, base).0, {block})
  {
    var t := VRealloc(s, block, total, base).0;
    forall q | q in s.live && q !in {block} ensures KeptExtent(s, t, q) {
      ReallocKeepsExtent(s, block, total, base, q);
    }
    KeptExtents(s, t, {block});
  }

  lemma KeptExtents(s: State, t: State, gone: set<nat>)
    requires VSafe(s)
    requires forall q {:trigger KeptExtent(s, t, q)} :: q in s.live && q !in gone ==> KeptExtent(s, t, q)
    ensures Keeps(s, t, gone)
  {
    forall q | q in s.live && q !in gone ensures KeptBlock(s, t, q) {
      assert SafeBlock(s, q) && KeptExtent(s, t, q);
      KeptHeader(s, t, q);
    }
  }

  /** With safe ends both paths keep the whole common prefix and every other block. */
  lemma VReallocContents(s: State, block: nat, total: nat, base: nat)
    requires VSafe(s) && VReallocOk(s, block, total, base) && block != 0
    ensures var (t, p) := VRealloc(s, block, total, base);
      var m := Min(s.live[block].size, total);
      && t.live.Keys == s.live.Keys - {block} + {p} && t.live[p].size == total
      && Keeps(s, t, {block}) && (p != block ==> p !in s.live)
      && Contents(t, p)[..m] == Contents(s, block)[..m]
  {
    assert TrueHeader(s, block) && Min(Intact(s, block), total) == Min(s.live[block].size, total) by {
      assert SafeBlock(s, block);
      IntactFits(s, block);
    }
    ReallocPrefix(s, block, total, base);
    ReallocKeeps(s, block, total, base);
  }

  // ---------------------------------------------------------------- steps

  /** A block a call answers ends where a whole header fits above it. */
  predicate SafeAnswer(abi: Abi, op: VOp, p: nat)
    requires abi.maxAlign > 0
  {
    match op
    case Calloc(n, size, _) => SafeEnd(abi, p + n * size)
    case Reallocarray(_, n, size, _) => SafeEnd(abi, p + n * size)
    case _ => true
  }

  lemma StepEnds(s: State, op: VOp, q: nat)
    requires VSafe(s) && VOpOk(s, op) && SafeAnswer(s.w.abi, op, VStep(s, op).1) && q in VStep(s, op).0.live
    ensures VStep(s, op).0.w.abi == s.w.abi
    ensures SafeEnd(s.w.abi, q + VStep(s, op).0.live[q].size)
  {
    var (t, p) := VStep(s, op);
    StepLive(s, op, q);
    if q in s.live && t.live[q] == s.live[q] {
      assert SafeBlock(s, q);
    } else {
      assert q == p && SafeEnd(s.w.abi, p + op.n * op.size);
    }
  }

  /** A step that answers a safe block keeps all headers true and all ends safe. */
  lemma StepSafe(s: State, op: VOp)
    requires VSafe(s) && VOpOk(s, op) && SafeAnswer(s.w.abi, op, VStep(s, op).1)
    ensures VSafe(VStep(s, op).0)
  {
    var (t, p) := VStep(s, op);
    VStepInv(s, op);
    SafeHeaders(s);
    SafeSpares(s, op);
    StepKeepsHeaders(s, op);
    forall q | q in t.live ensures SafeBlock(t, q) {
      assert TrueHeader(t, q);
      StepEnds(s, op, q);
    }
  }

  ghost predicate VHeapStep(h1: Heap, op: VOp, p: nat, h2: Heap) {
    match op
    case Calloc(n, size, _) => Replaces(h1, {}, p, n * size, h2) && h2[p] == Repeat(0, n * size)
    case Reallocarray(block, n, size, _) =>
      if block == 0 then Replaces(h1, {}, p, n * size, h2)
      else
        && block in h1 && Replaces(h1, {block}, p, n * size, h2)
        && var m := Min(|h1[block]|, n * size); h2[p][..m] == h1[block][..m]
    case Free(block) => h2 == h1 - {block}
    case Write(block, offset, value) =>
      block in h1 && offset < |h1[block]| && h2 == h1[block := Splice(h1[block], offset, value)]
    case Rewind(_) => h2 == map[]
    case RewindPercent(_) => h2 == map[]
    case Elsewhere(_) => h2 == h1
  }

  lemma CallocRefines(s: State, n: nat, size: nat, base: nat)
    requires VSafe(s) && VOpOk(s, Calloc(n, size, base))
    ensures var (t, p) := VStep(s, Calloc(n, size, base));
      Replaces(HeapOf(s), {}, p, n * size, HeapOf(t)) && HeapOf(t)[p] == Repeat(0, n * size)
  {
    var op := Calloc(n, size, base);
    var (t, p) := VStep(s, op);
    VStepInv(s, op);
    FilledBlock(s, n * size, base, Repeat(0, n * size));
    StepKeeps(s, op, {});
    AsReplacement(s, t, {}, p);
    assert Contents(t, p)[..n * size] == Contents(t, p);
  }

  lemma MallocRefines(s: State, n: nat, size: nat, base: nat)
    requires VSafe(s) && VOpOk(s, Reallocarray(0, n, size, base))
    ensures var (t, p) := VStep(s, Reallocarray(0, n, size, base));
      Replaces(HeapOf(s), {}, p, n * size, HeapOf(t))
  {
    var op := Reallocarray(0, n, size, base);
    var (t, p) := VStep(s, op);
    VStepInv(s, op);
    FilledBlock(s, n * size, base, []);
    forall q | q in s.live ensures !VTouches(op, q) {
      VBlock(s, q);
    }
    StepKeeps(s, op, {});
    AsReplacement(s, t, {}, p);
  }

  lemma ReallocRefines(s: State, block: nat, total: nat, base: nat)
    requires VSafe(s) && VReallocOk(s, block, total, base) && block != 0
    ensures var (t, p) := VRealloc(s, block, total, base);
      && Replaces(HeapOf(s), {block}, p, total, HeapOf(t))
      && var m := Min(|HeapOf(s)[block]|, total); HeapOf(t)[p][..m] == HeapOf(s)[block][..m]
  {
    var (t, p) := VRealloc(s, block, total, base);
    VReallocInv(s, block, total, base);
    VReallocContents(s, block, total, base);
    AsReplacement(s, t, {block}, p);
  }

  lemma FreeRefines(s: State, block: nat)
    requires VInv(s) && (block == 0 || block > s.w.abi.wordBytes)
    ensures HeapOf(VFree(s, block)) == HeapOf(s) - {block}
  {
    forall q | q in s.live ensures q != 0 {
      VBlock(s, q);
    }
  }

  /** With safe ends every step of the arena is a step of the abstract heap. */
  lemma VStepRefines(s: State, op: VOp)
    requires VSafe(s) && VOpOk(s, op)
    ensures var (t, p) := VStep(s, op); VHeapStep(HeapOf(s), op, p, HeapOf(t))
  {
    match op
    case Calloc(n, size, base) => CallocRefines(s, n, size, base);
    case Reallocarray(block, n, size, base) =>
      if block == 0 {
        MallocRefines(s, n, size, base);
      } else {
        ReallocRefines(s, block, n * size, base);
      }
    case Free(block) => FreeRefines(s, block);
    case Write(block, offset, value) =>
      VBlockMapped(s, block);
      WriteRefines(s, block, offset, value);
    case Rewind(_) =>
    case RewindPercent(_) =>
    case Elsewhere(mem) => ElsewhereContents(s, mem);
  }
}
