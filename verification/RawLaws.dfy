/** What raw calls answer and do to the fields, told by the fields alone: which page serves a request, when a block is
    resized where it is, and what that means along a run. */
module RawLaws {
  import opened Words
  import opened Memory
  import opened ArenaModel
  import opened ArenaState
  import opened ArenaBlocks
  import opened RawRuns
  import opened RawTheorems
  import opened PageOrder

  // ---------------------------------------------------------------- which page serves an allocation

  /** Some aligned place for the block lies between cursor and sentinel. */
  ghost predicate HasRoom(ar: Arena, size: nat, alignment: nat)
    requires alignment > 0
  {
    exists m: nat :: Aligned(m, alignment) && ar.current <= m && m + size <= ar.sentinel
  }

  /** A kept page is next in line, and the request fits the page size wherever the page lies. */
  predicate KeptPageServes(ar: Arena, size: nat, alignment: nat) {
    size + alignment - 1 <= ar.pageSize && ar.pageIndex + 1 < |ar.pages|
  }

  lemma RoomIsNoOverrun(w: World, size: nat, alignment: nat)
    requires alignment > 0
    ensures HasRoom(w.ar, size, alignment) <==> !Overruns(w, size, alignment)
  {
    AlignUpAligned(w.ar.current, alignment);
    if HasRoom(w.ar, size, alignment) {
      var m: nat :| Aligned(m, alignment) && w.ar.current <= m && m + size <= w.ar.sentinel;
      AlignUpIsLeast(w.ar.current, alignment, m);
    }
  }

  /** With room on the page: the first aligned place from the cursor on. Only cursor and last block move. */
  lemma AllocInPage(s: State, size: nat, alignment: nat, base: nat)
    requires RawInv(s) && AllocOk(s, size, alignment, base) && HasRoom(s.w.ar, size, alignment)
    ensures var (t, p) := RawAlloc(s, size, alignment, base);
      && RoundsTo(p, s.w.ar.current, alignment)
      && t.w == s.w.(ar := s.w.ar.(current := p + size, last := p))
      && t.live == s.live[p := Block(size, alignment, s.w.ar.pageIndex)]
  {
    RoomIsNoOverrun(s.w, size, alignment);
    AlignUpRounds(s.w.ar.current, alignment, AlignUp(s.w.ar.current, alignment));
  }

  /** Without room, but with a kept page next in line for a request that fits the page size: the first aligned place of
      that very page, up to the page size. No system page is opened, none changes hands, and memory stays. */
  lemma AllocOnKeptPage(s: State, size: nat, alignment: nat, base: nat)
    requires RawInv(s) && AllocOk(s, size, alignment, base)
    requires !HasRoom(s.w.ar, size, alignment) && KeptPageServes(s.w.ar, size, alignment)
    ensures var (t, p) := RawAlloc(s, size, alignment, base);
      var next := s.w.ar.pageIndex + 1;
      var page := s.w.ar.pages[next];
      && RoundsTo(p, page, alignment)
      && t.w == s.w.(ar := s.w.ar.(pageIndex := next, current := p + size, sentinel := page + s.w.ar.pageSize,
                                   last := p))
      && t.live == s.live[p := Block(size, alignment, next)]
  {
    RoomIsNoOverrun(s.w, size, alignment);
    var page := s.w.ar.pages[s.w.ar.pageIndex + 1];
    AlignUpRounds(page, alignment, AlignUp(page, alignment));
  }

  /** Otherwise: one new page from the system, and the first aligned place on it. */
  lemma AllocOnNewPage(s: State, size: nat, alignment: nat, base: nat)
    requires RawInv(s) && AllocOk(s, size, alignment, base)
    requires !HasRoom(s.w.ar, size, alignment) && !KeptPageServes(s.w.ar, size, alignment)
    ensures var (t, p) := RawAlloc(s, size, alignment, base);
      var bytes := Max(size + alignment - 1, s.w.ar.pageSize);
      && RoundsTo(p, base, alignment) && t.w.ar.current == p + size && t.w.ar.last == p
      && OpensPage(s.w, t.w, base, bytes) && GainsPage(s.w.mem, t.w.mem, base, bytes)
      && t.live == s.live[p := Block(size, alignment, |s.w.ar.pages|)]
  {
    RoomIsNoOverrun(s.w, size, alignment);
    AlignUpRounds(base, alignment, AlignUp(base, alignment));
    PageGained(s.w.mem, base, Max(size + alignment - 1, s.w.ar.pageSize));
  }

  /** The page size of an initialised arena is what was asked for, and 4096 for 0. */
  lemma FirstPage(abi: Abi, pageSize: nat, foreign: Bytes, size: nat, alignment: nat, base: nat)
    requires abi.Ok() && AllocOk(Fresh(abi, pageSize, foreign), size, alignment, base)
    ensures var (t, p) := RawAlloc(Fresh(abi, pageSize, foreign), size, alignment, base);
      var bytes := Max(size + alignment - 1, if pageSize == 0 then 4096 else pageSize);
      && t.w.ar.pages == [base] && t.w.owned == map[base := bytes] && t.w.ar.sentinel == base + bytes
      && RoundsTo(p, base, alignment)
  {
    var s := Fresh(abi, pageSize, foreign);
    FreshInv(abi, pageSize, foreign);
    assert !HasRoom(s.w.ar, size, alignment);
    AllocOnNewPage(s, size, alignment, base);
  }

  // ---------------------------------------------------------------- calls that allocate as alloc does

  /** Where a call that allocates asks alloc for memory: how much, and how aligned. */
  ghost predicate Asks(s: State, op: RawOp, size: nat, alignment: nat) {
    match op
    case Get(n, a, _) => size == n && alignment == a
    case GetZeroed(n, a, _) => size == n && alignment == a
    case Resize(block, _, n, a, _) =>
      size == n && alignment == a && (block == 0 || block != s.w.ar.last || block + n > s.w.ar.sentinel)
    case Dup(_, data, _) => size == |data| && alignment == 1
    case DupString(_, text, _) => size == |text| + 1 && alignment == 1
    case _ => false
  }

  /** alloc, calloc, memdup, strdup, realloc of NULL, of a block that is not the last, and of one that would pass the
      sentinel: all answer what alloc answers and leave the arena as alloc does. */
  lemma AnswersLikeAlloc(s: State, op: RawOp, size: nat, alignment: nat)
    requires RawInv(s) && RawOpOk(s, op) && Asks(s, op, size, alignment)
    ensures alignment > 0
    ensures var (t, p) := RawStep(s, op);
      var (u, q) := RawAlloc(s, size, alignment, op.base);
      && p == q && t.w.ar == u.w.ar && t.w.owned == u.w.owned && t.w.mem.Keys == u.w.mem.Keys
      && p !in s.live
  {
    AllocPairs(s, size, alignment, op.base);
  }

  // ---------------------------------------------------------------- resizing in place

  /** realloc of the last block to an end at or below the sentinel answers the block itself, moves the cursor to the
      new end, and leaves everything else alone: the block is still the last one. */
  lemma ReallocInPlace(s: State, block: nat, oldSize: nat, newSize: nat, alignment: nat, base: nat)
    requires RawInv(s) && ReallocOk(s, block, oldSize, newSize, alignment, base)
    requires block != 0 && block == s.w.ar.last && block + newSize <= s.w.ar.sentinel
    ensures var (t, p) := RawRealloc(s, block, oldSize, newSize, alignment, base);
      && p == block
      && t.w == s.w.(ar := s.w.ar.(current := block + newSize))
      && t.live == s.live[block := s.live[block].(size := newSize)]
  {
  }

  /** ... and in no other case does it answer the block itself. */
  lemma ReallocMoves(s: State, block: nat, oldSize: nat, newSize: nat, alignment: nat, base: nat)
    requires RawInv(s) && ReallocOk(s, block, oldSize, newSize, alignment, base) && block != 0
    ensures RawRealloc(s, block, oldSize, newSize, alignment, base).1 == block <==>
      block == s.w.ar.last && block + newSize <= s.w.ar.sentinel
  {
    if !(block == s.w.ar.last && block + newSize <= s.w.ar.sentinel) {
      AnswersLikeAlloc(s, Resize(block, oldSize, newSize, alignment, base), newSize, alignment);
    }
  }

  /** A resize of `b` that ends at or below `sentinel`, a client store, or a change elsewhere. */
  predicate Grows(op: RawOp, b: nat, sentinel: nat) {
    || (op.Resize? && op.block == b && b + op.newSize <= sentinel)
    || op.Write? || op.Elsewhere?
  }

  /** Any number of reallocs of the last block that end at or below the sentinel answer one address: the block stays
      last, where it is, on its page, and no page is opened. */
  lemma {:induction false} GrowthInPlace(states: seq<State>, ops: seq<RawOp>, ps: seq<nat>, b: nat, i: nat)
    requires IsRun(states, ops, ps) && RawInv(states[0]) && i <= |ops|
    requires b != 0 && b == states[0].w.ar.last
    requires forall k: nat :: k < i ==> Grows(ops[k], b, states[0].w.ar.sentinel)
    ensures b in states[i].live && states[i].w.ar.last == b
    ensures states[i].w.ar == states[0].w.ar.(current := b + states[i].live[b].size)
    ensures states[i].w.owned == states[0].w.owned
    ensures forall k: nat :: k < i && ops[k].Resize? ==> ps[k] == b
  {
    RawRunInv(states, ops, ps, i);
    if i > 0 {
      GrowthInPlace(states, ops, ps, b, i - 1);
      RawRunInv(states, ops, ps, i - 1);
      assert StepAt(states, ops, ps, i - 1);
      GrowsStep(states[i - 1], ops[i - 1], b, states[0].w.ar.sentinel);
    }
  }

  lemma GrowsStep(s: State, op: RawOp, b: nat, sentinel: nat)
    requires RawInv(s) && RawOpOk(s, op) && b != 0 && b == s.w.ar.last && s.w.ar.sentinel == sentinel
    requires Grows(op, b, sentinel)
    ensures var (t, p) := RawStep(s, op);
      && b in t.live && t.w.ar == s.w.ar.(current := b + t.live[b].size) && t.w.owned == s.w.owned
      && (op.Resize? ==> p == b)
  {
    if op.Resize? {
      ReallocInPlace(s, op.block, op.oldSize, op.newSize, op.alignment, op.base);
    }
  }

  // ---------------------------------------------------------------- kept pages come first

  /** A step that asks for no more than a page, and gives no page back. */
  predicate SmallStep(op: RawOp, pageSize: nat) {
    Demand(op) <= pageSize && !op.Rewind? && !op.RewindPercent?
  }

  lemma AllocNextPage(s: State, size: nat, alignment: nat, base: nat)
    requires RawInv(s) && AllocOk(s, size, alignment, base) && size + alignment - 1 <= s.w.ar.pageSize
    ensures NextPage(s.w, RawAlloc(s, size, alignment, base).0.w)
  {
    if HasRoom(s.w.ar, size, alignment) {
      AllocInPage(s, size, alignment, base);
    } else if KeptPageServes(s.w.ar, size, alignment) {
      AllocOnKeptPage(s, size, alignment, base);
    } else {
      AllocOnNewPage(s, size, alignment, base);
    }
  }

  lemma SmallNextPage(s: State, op: RawOp)
    requires RawInv(s) && RawOpOk(s, op) && SmallStep(op, s.w.ar.pageSize)
    ensures NextPage(s.w, RawStep(s, op).0.w)
  {
    if op.Resize? && op.block != 0 && op.block == s.w.ar.last && op.block + op.newSize <= s.w.ar.sentinel {
      ReallocInPlace(s, op.block, op.oldSize, op.newSize, op.alignment, op.base);
    } else if op.Write? || op.Elsewhere? {
      assert RawStep(s, op).0.w.ar == s.w.ar;
    } else {
      AskNextPage(s, op);
    }
  }

  lemma AskNextPage(s: State, op: RawOp)
    requires RawInv(s) && RawOpOk(s, op) && SmallStep(op, s.w.ar.pageSize) && !op.Write? && !op.Elsewhere?
    requires op.Resize? && op.block != 0 ==> op.block != s.w.ar.last || op.block + op.newSize > s.w.ar.sentinel
    ensures NextPage(s.w, RawStep(s, op).0.w)
  {
    var (size: nat, alignment: nat) := match op
      case Get(n, a, _) => (n, a)
      case GetZeroed(n, a, _) => (n, a)
      case Resize(_, _, n, a, _) => (n, a)
      case Dup(_, data, _) => (|data|, 1)
      case DupString(_, text, _) => (|text| + 1, 1);
    assert Asks(s, op, size, alignment);
    AnswersLikeAlloc(s, op, size, alignment);
    AllocNextPage(s, size, alignment, op.base);
  }

  /** Kept pages are used one after the other before any is opened: in a run without resets whose requests fit the page
      size, the index goes up one by one, and until it has passed the pages there were at the start, no
      page is opened and none changes hands. */
  lemma {:induction false} KeptPagesFirst(states: seq<State>, ops: seq<RawOp>, ps: seq<nat>, i: nat)
    requires IsRun(states, ops, ps) && RawInv(states[0]) && i <= |ops|
    requires forall k: nat :: k < |ops| ==> SmallStep(ops[k], states[0].w.ar.pageSize)
    ensures InOrder(states[0].w, states[i].w)
    ensures i < |ops| ==> NextPage(states[i].w, states[i + 1].w)
  {
    RawRunInv(states, ops, ps, i);
    if i > 0 {
      KeptPagesFirst(states, ops, ps, i - 1);
      OrderStep(states[0].w, states[i - 1].w, states[i].w);
    }
    if i < |ops| {
      PageSizeFixed(states, ops, ps, i);
      assert StepAt(states, ops, ps, i);
      SmallNextPage(states[i], ops[i]);
    }
  }
}
