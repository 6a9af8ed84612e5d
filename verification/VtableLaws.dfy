/** What protocol calls answer and do to the fields, told by the fields alone, for arbitrary sizes: which page serves a
    request, when a block is resized where it is, what free undoes, and what that means along a run. */
module VtableLaws {
  import opened Words
  import opened Memory
  import opened ArenaModel
  import opened ArenaState
  import opened ArenaBlocks
  import opened VtableRuns
  import opened VtableSteps
  import opened VtableHeaders
  import opened VtableTheorems
  import opened PageOrder

  // ---------------------------------------------------------------- which page serves an allocation

  /** Header and block fit between cursor and sentinel. */
  predicate HasRoom(w: World, size: nat) {
    w.ar.pages != [] && w.ar.current + w.abi.wordBytes + size <= w.ar.sentinel
  }

  /** A kept page is next in line, and the request fits the page size with the alignment of its start. */
  predicate KeptPageServes(w: World, size: nat) {
    size + w.abi.maxAlign <= w.ar.pageSize && w.ar.pageIndex + 1 < |w.ar.pages|
  }

  /** Below p a header reads `size`; no other byte differs. */
  ghost predicate OnlyHeader(was: Bytes, w: World, p: nat, size: nat)
    requires p >= w.abi.wordBytes
  {
    && HeaderOf(w, p) == size
    && forall a: nat :: !Within(a, p - w.abi.wordBytes, w.abi.wordBytes) ==> Peek(w.mem, a) == Peek(was, a)
  }

  /** The next block goes to the first aligned address at or above this end. */
  ghost predicate CursorAt(w: World, end: nat)
    requires w.abi.maxAlign > 0
  {
    RoundsTo(w.ar.current + w.abi.wordBytes, end, w.abi.maxAlign)
  }

  lemma RoomIsNoOverrun(w: World, size: nat)
    requires PagesOk(w) && PageOpen(w)
    ensures HasRoom(w, size) <==> !HeaderOverruns(w, size)
  {
    if w.ar.pages != [] {
      assert PageOk(w, w.ar.pageIndex);
    }
  }

  lemma AllocCommon(s: State, size: nat, base: nat)
    requires VInv(s) && VAllocOk(s, size, base)
    ensures var (t, p) := VAlloc(s, size, base);
      && p > s.w.abi.wordBytes && t.w.abi == s.w.abi && t.w.ar.last == p - s.w.abi.wordBytes
      && CursorAt(t.w, p + size) && OnlyHeader(s.w.mem, t.w, p, size)
  {
    AllocCursor(s, size, base);
    AllocWrites(s, size, base);
  }

  lemma AllocCursor(s: State, size: nat, base: nat)
    requires VInv(s) && VAllocOk(s, size, base)
    ensures var (t, p) := VAlloc(s, size, base);
      && p > s.w.abi.wordBytes && t.w.abi == s.w.abi && t.w.ar.last == p - s.w.abi.wordBytes
      && CursorAt(t.w, p + size)
  {
    var (t, p) := VAlloc(s, size, base);
    HeaderStores(s.w, size, base);
    VAllocNew(s, size, base);
    CursorAfterBlock(t, p);
  }

  lemma CursorAfterBlock(t: State, p: nat)
    requires t.w.abi.Ok() && p in t.live && t.w.ar.current + t.w.abi.wordBytes == Next(t, p)
    ensures CursorAt(t.w, p + t.live[p].size)
  {
    AlignUpRounds(p + t.live[p].size, t.w.abi.maxAlign, Next(t, p));
  }

  lemma AllocWrites(s: State, size: nat, base: nat)
    requires VInv(s) && VAllocOk(s, size, base)
    ensures var (t, p) := VAlloc(s, size, base);
      && p > s.w.abi.wordBytes && t.w.abi == s.w.abi && OnlyHeader(s.w.mem, t.w, p, size)
  {
    NewHeaderTrue(s, size, base);
    PlaceReads(s.w, size, base);
    HeaderStores(s.w, size, base);
  }

  /** Memory is the placed one with the header stored below the block. */
  lemma HeaderStores(w: World, size: nat, base: nat)
    requires w.abi.Ok()
    ensures var (v, p) := HeaderAlloc(w, size, base);
      && p >= w.abi.wordBytes && v.abi == w.abi && v.ar.last == p - w.abi.wordBytes
      && v.mem == Store(HeaderPlace(w, size, base).mem, p - w.abi.wordBytes, Encode(size, w.abi.wordBytes))
  {
    assert HeaderPlace(w, size, base).abi == w.abi;
  }

  /** Placing a header changes what no address reads. */
  lemma PlaceReads(w: World, size: nat, base: nat)
    requires PagesOk(w) && HeaderAnswer(w, size, base)
    ensures forall a: nat :: Peek(HeaderPlace(w, size, base).mem, a) == Peek(w.mem, a)
  {
    if HeaderOverruns(w, size) && !Recycles(w.ar, size + w.abi.maxAlign) {
      PageGained(w.mem, base, Max(size + w.abi.maxAlign, w.ar.pageSize));
    }
  }

  /** With room on the page: one word above the cursor. Only cursor and last block move, and the header is written. */
  lemma AllocInPage(s: State, size: nat, base: nat)
    requires VInv(s) && VAllocOk(s, size, base) && HasRoom(s.w, size)
    ensures var (t, p) := VAlloc(s, size, base);
      && p == s.w.ar.current + s.w.abi.wordBytes && CursorAt(t.w, p + size) && OnlyHeader(s.w.mem, t.w, p, size)
      && t.w.ar == s.w.ar.(current := t.w.ar.current, last := s.w.ar.current)
      && t.w.owned == s.w.owned && t.w.mem.Keys == s.w.mem.Keys
      && t.live == s.live[p := Block(size, s.w.abi.wordBytes, s.w.ar.pageIndex)]
  {
    RoomIsNoOverrun(s.w, size);
    AllocCommon(s, size, base);
  }

  /** Without room, but with a kept page next in line for a request that fits it: a whole alignment into that very page,
      up to the page size. No system page is opened, and none changes hands. */
  lemma AllocOnKeptPage(s: State, size: nat, base: nat)
    requires VInv(s) && VAllocOk(s, size, base) && !HasRoom(s.w, size) && KeptPageServes(s.w, size)
    ensures var (t, p) := VAlloc(s, size, base);
      var next := s.w.ar.pageIndex + 1;
      var page := s.w.ar.pages[next];
      && p == page + s.w.abi.maxAlign && CursorAt(t.w, p + size) && OnlyHeader(s.w.mem, t.w, p, size)
      && t.w.ar == s.w.ar.(pageIndex := next, current := t.w.ar.current, sentinel := page + s.w.ar.pageSize,
                           last := p - s.w.abi.wordBytes)
      && t.w.owned == s.w.owned && t.w.mem.Keys == s.w.mem.Keys
      && t.live == s.live[p := Block(size, s.w.abi.wordBytes, next)]
  {
    RoomIsNoOverrun(s.w, size);
    AllocCommon(s, size, base);
  }

  /** Otherwise: one new page from the system, and a whole alignment into it. */
  lemma AllocOnNewPage(s: State, size: nat, base: nat)
    requires VInv(s) && VAllocOk(s, size, base) && !HasRoom(s.w, size) && !KeptPageServes(s.w, size)
    ensures var (t, p) := VAlloc(s, size, base);
      var bytes := Max(size + s.w.abi.maxAlign, s.w.ar.pageSize);
      && p == base + s.w.abi.maxAlign && CursorAt(t.w, p + size) && OnlyHeader(s.w.mem, t.w, p, size)
      && t.w.ar.last == p - s.w.abi.wordBytes && OpensPage(s.w, t.w, base, bytes)
      && (forall a: nat :: a in t.w.mem <==> a in s.w.mem || Within(a, base, bytes))
      && t.live == s.live[p := Block(size, s.w.abi.wordBytes, |s.w.ar.pages|)]
  {
    RoomIsNoOverrun(s.w, size);
    AllocCommon(s, size, base);
    PageGained(s.w.mem, base, Max(size + s.w.abi.maxAlign, s.w.ar.pageSize));
  }

  /** The page size of an initialised arena is what was asked for, and 4096 for 0. */
  lemma FirstPage(abi: Abi, pageSize: nat, foreign: Bytes, size: nat, base: nat)
    requires abi.Ok() && VAllocOk(Fresh(abi, pageSize, foreign), size, base)
    ensures var (t, p) := VAlloc(Fresh(abi, pageSize, foreign), size, base);
      var bytes := Max(size + abi.maxAlign, if pageSize == 0 then 4096 else pageSize);
      && p == base + abi.maxAlign
      && t.w.ar.pages == [base] && t.w.owned == map[base := bytes] && t.w.ar.sentinel == base + bytes
  {
    var s := Fresh(abi, pageSize, foreign);
    FreshSafe(s);
    assert s.w.ar.pages == [] && s.w.owned == map[];
    AllocOnNewPage(s, size, base);
  }

  // ---------------------------------------------------------------- reallocarray and calloc

  /** The block is the last one, and its new end is at or below the sentinel. */
  predicate StaysPut(w: World, block: nat, total: nat) {
    block == w.ar.last + w.abi.wordBytes && block + total <= w.ar.sentinel
  }

  /** reallocarray of the last block to an end at or below the sentinel answers the block itself: its
      header holds the new size, the cursor follows its new end, and nothing else changes; it is still
      the last one. */
  lemma ReallocInPlace(s: State, block: nat, total: nat, base: nat)
    requires VInv(s) && VReallocOk(s, block, total, base) && block != 0 && StaysPut(s.w, block, total)
    ensures var (t, p) := VRealloc(s, block, total, base);
      && p == block && CursorAt(t.w, block + total) && OnlyHeader(s.w.mem, t.w, block, total)
      && t.w.ar == s.w.ar.(current := t.w.ar.current) && t.w.abi == s.w.abi
      && t.w.owned == s.w.owned && t.w.mem.Keys == s.w.mem.Keys
      && t.live == s.live[block := s.live[block].(size := total)]
  {
    var t := VRealloc(s, block, total, base).0;
    VBlock(s, block);
    ReallocHeader(s, block, total, base);
    AlignUpRounds(block + total, s.w.abi.maxAlign, AlignUp(block + total, s.w.abi.maxAlign));
    VResizedCursor(s, block, total);
  }

  /** calloc, malloc, and reallocarray of a block that is not the last or would pass the sentinel: all
      answer what malloc answers, a block that was not live, and leave the arena as malloc does. */
  lemma AnswersLikeMalloc(s: State, op: VOp)
    requires VInv(s) && VOpOk(s, op) && (op.Calloc? || op.Reallocarray?)
    requires op.Reallocarray? && op.block != 0 ==> !StaysPut(s.w, op.block, op.n * op.size)
    ensures var (t, p) := VStep(s, op);
      var (u, q) := VAlloc(s, op.n * op.size, op.base);
      && p == q && t.w.abi == u.w.abi && t.w.ar == u.w.ar && t.w.owned == u.w.owned && t.w.mem.Keys == u.w.mem.Keys
      && p !in s.live
  {
    VAllocPairs(s, op.n * op.size, op.base);
  }

  /** A block is answered back exactly when it is the last one and its new end is at or below the sentinel. */
  lemma ReallocMoves(s: State, block: nat, total: nat, base: nat)
    requires VInv(s) && VReallocOk(s, block, total, base) && block != 0
    ensures VRealloc(s, block, total, base).1 == block <==> StaysPut(s.w, block, total)
  {
    if !StaysPut(s.w, block, total) {
      VAllocPairs(s, total, base);
    }
  }

  // ---------------------------------------------------------------- free

  /** free of the last block puts the cursor back on its header and forgets it; free of any other block, or of NULL,
      changes neither the arena nor memory. */
  lemma FreeUndoes(s: State, block: nat)
    requires VInv(s) && (block == 0 || block > s.w.abi.wordBytes)
    ensures VFree(s, block).live == s.live - {block}
    ensures VFree(s, block).w ==
      if block != 0 && block == s.w.ar.last + s.w.abi.wordBytes
      then s.w.(ar := s.w.ar.(current := block - s.w.abi.wordBytes, last := 0))
      else s.w
  {
    if block == 0 && 0 in s.live {
      VBlock(s, 0);
    }
  }

  /** However often the last block was resized in place, after free a malloc that fits the page answers it again. */
  lemma FreeThenMalloc(s: State, block: nat, size: nat, base: nat)
    requires VInv(s) && block > s.w.abi.wordBytes && block == s.w.ar.last + s.w.abi.wordBytes
    requires size > 0 && block + size <= s.w.ar.sentinel
    ensures VAlloc(VFree(s, block), size, base).1 == block
  {
    VFreeInv(s, block);
    FreeUndoes(s, block);
    VBlock(s, block);
    RoomIsNoOverrun(VFree(s, block).w, size);
    AllocInPage(VFree(s, block), size, base);
  }

  // ---------------------------------------------------------------- growing in place, over a run

  /** A resize of `b` that ends at or below `sentinel`, a client store, or a change elsewhere. */
  predicate Grows(op: VOp, b: nat, sentinel: nat) {
    || (op.Reallocarray? && op.block == b && b + op.n * op.size <= sentinel)
    || op.Write? || op.Elsewhere?
  }

  /** All fields but the cursor are as at first. */
  predicate StaysLast(first: World, w: World) {
    w.abi == first.abi && w.ar == first.ar.(current := w.ar.current) && w.owned == first.owned
  }

  lemma GrowsStep(first: World, s: State, op: VOp, b: nat)
    requires VInv(s) && VOpOk(s, op) && b > first.abi.wordBytes && b == first.ar.last + first.abi.wordBytes
    requires StaysLast(first, s.w) && Grows(op, b, first.ar.sentinel)
    ensures StaysLast(first, VStep(s, op).0.w) && (op.Reallocarray? ==> VStep(s, op).1 == b)
  {
    if op.Reallocarray? {
      ReallocInPlace(s, op.block, op.n * op.size, op.base);
    }
  }

  lemma GrowsOn(states: seq<State>, ops: seq<VOp>, ps: seq<nat>, b: nat, i: nat)
    requires IsVRun(states, ops, ps) && VInv(states[0]) && i < |ops|
    requires b > states[0].w.abi.wordBytes && b == states[0].w.ar.last + states[0].w.abi.wordBytes
    requires StaysLast(states[0].w, states[i].w) && Grows(ops[i], b, states[0].w.ar.sentinel)
    ensures StaysLast(states[0].w, states[i + 1].w) && b in states[i + 1].live
    ensures ops[i].Reallocarray? ==> ps[i] == b
  {
    VRunInv(states, ops, ps, i);
    VRunInv(states, ops, ps, i + 1);
    assert VCallAt(states, ops, ps, i) && CopyAt(states, ops, i);
    GrowsStep(states[0].w, states[i], ops[i], b);
    LastIsLive(states[i + 1], b);
  }

  lemma LastIsLive(s: State, b: nat)
    requires VInv(s) && b > s.w.abi.wordBytes && b == s.w.ar.last + s.w.abi.wordBytes
    ensures b in s.live
  {
  }

  /** Any number of reallocarrays of the last block that end at or below the sentinel answer one
      address: the block stays last, where it is, on its page, and no page is opened. */
  lemma {:induction false} GrowthInPlace(states: seq<State>, ops: seq<VOp>, ps: seq<nat>, b: nat, i: nat)
    requires IsVRun(states, ops, ps) && VInv(states[0]) && i <= |ops|
    requires b > states[0].w.abi.wordBytes && b == states[0].w.ar.last + states[0].w.abi.wordBytes
    requires forall k: nat :: k < i ==> Grows(ops[k], b, states[0].w.ar.sentinel)
    ensures StaysLast(states[0].w, states[i].w) && b in states[i].live
    ensures forall k: nat :: k < i && ops[k].Reallocarray? ==> ps[k] == b
  {
    if i > 0 {
      GrowthInPlace(states, ops, ps, b, i - 1);
      GrowsOn(states, ops, ps, b, i - 1);
    }
  }

  // ---------------------------------------------------------------- kept pages come first

  /** A step that asks for no more than a page, and gives no page back. */
  predicate SmallStep(abi: Abi, op: VOp, pageSize: nat) {
    && !op.Rewind? && !op.RewindPercent?
    && (op.Calloc? || op.Reallocarray? ==> op.n * op.size + abi.maxAlign <= pageSize)
  }

  lemma AllocNextPage(s: State, size: nat, base: nat)
    requires VInv(s) && VAllocOk(s, size, base) && size + s.w.abi.maxAlign <= s.w.ar.pageSize
    ensures NextPage(s.w, VAlloc(s, size, base).0.w)
  {
    if HasRoom(s.w, size) {
      AllocInPage(s, size, base);
    } else if KeptPageServes(s.w, size) {
      AllocOnKeptPage(s, size, base);
    } else {
      AllocOnNewPage(s, size, base);
    }
  }

  lemma SmallNextPage(s: State, op: VOp)
    requires VInv(s) && VOpOk(s, op) && SmallStep(s.w.abi, op, s.w.ar.pageSize)
    ensures VStep(s, op).0.w.abi == s.w.abi && NextPage(s.w, VStep(s, op).0.w)
  {
    StepAbi(s, op);
    if op.Reallocarray? && op.block != 0 && StaysPut(s.w, op.block, op.n * op.size) {
      ReallocInPlace(s, op.block, op.n * op.size, op.base);
    } else if op.Calloc? || op.Reallocarray? {
      AnswersLikeMalloc(s, op);
      AllocNextPage(s, op.n * op.size, op.base);
    } else if op.Free? {
      FreeUndoes(s, op.block);
    } else {
      assert VStep(s, op).0.w.ar == s.w.ar;
    }
  }

  /** Kept pages are used one after the other before any is opened: in a run without resets whose requests fit the page
      size, the index goes up one by one, and until it has passed the pages there were at the start, no
      page is opened and none changes hands. */
  lemma {:induction false} KeptPagesFirst(states: seq<State>, ops: seq<VOp>, ps: seq<nat>, i: nat)
    requires IsVRun(states, ops, ps) && VInv(states[0]) && i <= |ops|
    requires forall k: nat :: k < |ops| ==> SmallStep(states[0].w.abi, ops[k], states[0].w.ar.pageSize)
    ensures states[i].w.abi == states[0].w.abi && InOrder(states[0].w, states[i].w)
    ensures i < |ops| ==> NextPage(states[i].w, states[i + 1].w)
  {
    VRunInv(states, ops, ps, i);
    if i > 0 {
      KeptPagesFirst(states, ops, ps, i - 1);
      OrderStep(states[0].w, states[i - 1].w, states[i].w);
      assert VCallAt(states, ops, ps, i - 1);
      StepAbi(states[i - 1], ops[i - 1]);
    }
    if i < |ops| {
      assert VCallAt(states, ops, ps, i) && CopyAt(states, ops, i);
      SmallNextPage(states[i], ops[i]);
    }
  }
}
