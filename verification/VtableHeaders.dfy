/** Headers and the blocks beside them, for arbitrary sizes. A header is the word below its block;
    whether it lands in the tail of the block before depends on where that block ends. */
module VtableHeaders {
  import opened Words
  import opened Memory
  import opened ArenaModel
  import opened ArenaState
  import opened ArenaBlocks
  import opened VtableRuns
  import opened VtableSteps

  /** The addresses where a block may end so that a whole header fits below the next aligned address. */
  predicate SafeEnd(abi: Abi, end: nat)
    requires abi.maxAlign > 0
  {
    1 <= end % abi.maxAlign && end % abi.maxAlign + abi.wordBytes <= abi.maxAlign
  }

  lemma TailRoom(abi: Abi, end: nat)
    requires abi.Ok()
    ensures end + abi.wordBytes <= AlignUp(end, abi.maxAlign) <==> SafeEnd(abi, end)
  {
    AlignUpPadding(end, abi.maxAlign);
  }

  /** For a block with an aligned start the size alone decides. */
  lemma SizeDecides(abi: Abi, p: nat, size: nat)
    requires abi.Ok() && Aligned(p, abi.maxAlign)
    ensures SafeEnd(abi, p + size) <==> SafeEnd(abi, size)
  {
    TailRoom(abi, p + size);
    TailRoom(abi, size);
    AlignUpOffset(p, size, abi.maxAlign);
  }

  /** How many bytes of a block lie below the lowest place for the next header. */
  function Intact(s: State, p: nat): (r: nat)
    requires p in s.live && s.w.abi.Ok()
    ensures r <= s.live[p].size
  {
    var room := Next(s, p) - s.w.abi.wordBytes - p;
    if room < 0 then 0 else Min(s.live[p].size, room)
  }

  /** The next header fits above these bytes, and they are the whole block exactly for safe ends. */
  lemma IntactFits(s: State, p: nat)
    requires VInv(s) && p in s.live
    ensures p + Intact(s, p) + s.w.abi.wordBytes <= Next(s, p)
    ensures Intact(s, p) == s.live[p].size <==> SafeEnd(s.w.abi, p + s.live[p].size)
  {
    VBlock(s, p);
    TailRoom(s.w.abi, p + s.live[p].size);
    StartIsWordAligned(s.w, p, s.live[p].page);
    WordAbove(s.w.abi, p, p + s.live[p].size);
  }

  lemma WordAbove(abi: Abi, p: nat, end: nat)
    requires abi.Ok() && Aligned(p, abi.wordBytes) && p < end
    ensures p + abi.wordBytes <= AlignUp(end, abi.maxAlign)
  {
    AlignUpAligned(end, abi.maxAlign);
    PowersNest(abi.maxAlign, abi.wordBytes);
    MultipleOfMultiple(AlignUp(end, abi.maxAlign), abi.maxAlign, abi.wordBytes);
    MultiplesApart(p, AlignUp(end, abi.maxAlign), abi.wordBytes);
  }

  // ---------------------------------------------------------------- live blocks and headers

  lemma OrderedExtents(s: State, p: nat, q: nat)
    requires VInv(s) && p in s.live && q in s.live && p + s.live[p].size <= q
    ensures p + Intact(s, p) + s.w.abi.wordBytes <= q
  {
    VBlock(s, p);
    VBlock(s, q);
    if Aligned(q, s.w.abi.maxAlign) {
      IntactFits(s, p);
      AlignUpIsLeast(p + s.live[p].size, s.w.abi.maxAlign, q);
    } else {
      assert PageOk(s.w, 0);
      PagesDistinct(s.w, s.live[p].page, 0);
    }
  }

  /** For arbitrary sizes, the header of a live block shares no byte with another live header, nor with
      the intact part of another live block. */
  lemma ExtentsApart(s: State, p: nat, q: nat)
    requires VInv(s) && p in s.live && q in s.live && p != q
    ensures p > s.w.abi.wordBytes && q > s.w.abi.wordBytes
    ensures Apart(p - s.w.abi.wordBytes, s.w.abi.wordBytes + Intact(s, p),
                  q - s.w.abi.wordBytes, s.w.abi.wordBytes + Intact(s, q))
  {
    VBlock(s, p);
    VBlock(s, q);
    assert PairApart(s, p, q);
    if p + s.live[p].size <= q {
      OrderedExtents(s, p, q);
    } else {
      OrderedExtents(s, q, p);
    }
  }

  lemma ExtentMapped(s: State, q: nat)
    requires VInv(s) && q in s.live
    ensures q > s.w.abi.wordBytes
    ensures Mapped(s.w.mem, q - s.w.abi.wordBytes, s.w.abi.wordBytes + s.live[q].size)
  {
    VBlock(s, q);
  }

  /** A block is live as before, with the same header and the same intact bytes. */
  ghost predicate KeptExtent(s: State, t: State, q: nat)
    requires q in s.live && s.w.abi.Ok()
  {
    && t.w.abi == s.w.abi && q in t.live && t.live[q] == s.live[q] && q > s.w.abi.wordBytes
    && Agree(t.w.mem, s.w.mem, q - s.w.abi.wordBytes, s.w.abi.wordBytes + Intact(s, q))
  }

  lemma KeptTwice(s: State, u: State, t: State, q: nat)
    requires q in s.live && s.w.abi.Ok() && KeptExtent(s, u, q) && KeptExtent(u, t, q)
    ensures KeptExtent(s, t, q)
  {
  }

  /** A block that ends safely is kept as a whole. */
  lemma KeptHeader(s: State, t: State, q: nat)
    requires VInv(s) && q in s.live && KeptExtent(s, t, q)
    ensures HeaderOf(t.w, q) == HeaderOf(s.w, q)
    ensures SafeEnd(s.w.abi, q + s.live[q].size) ==> KeptBlock(s, t, q)
  {
    IntactFits(s, q);
    AgreeLoad(t.w.mem, s.w.mem, q - s.w.abi.wordBytes, s.w.abi.wordBytes);
    AgreeLoad(t.w.mem, s.w.mem, q, Intact(s, q));
  }

  // ---------------------------------------------------------------- the frame of an allocation

  /** A page that holds a live block does not start its next block without alignment. */
  lemma BareIsLowest(s: State, q: nat)
    requires VInv(s) && q in s.live && s.live[q].page == s.w.ar.pageIndex
    ensures Aligned(s.w.ar.current + s.w.abi.wordBytes, s.w.abi.maxAlign)
  {
    VBlock(s, q);
    NextAbovePage(s.w, s.w.ar.pageIndex, q + s.live[q].size);
    assert PageOk(s.w, 0);
    NextMultiple(s.w.ar.pages[0], s.w.abi.maxAlign);
  }

  /** On the same page a new block starts at the rounded end of a block or a whole alignment later. */
  lemma StrictlyAbove(s: State, q: nat)
    requires VInv(s) && q in s.live && s.live[q].page == s.w.ar.pageIndex
    ensures var p := s.w.ar.current + s.w.abi.wordBytes;
      Next(s, q) <= p && (Next(s, q) < p ==> Next(s, q) + s.w.abi.maxAlign <= p)
  {
    VBlock(s, q);
    var p := s.w.ar.current + s.w.abi.wordBytes;
    BareIsLowest(s, q);
    AlignUpAligned(q + s.live[q].size, s.w.abi.maxAlign);
    if Next(s, q) < p {
      MultiplesApart(Next(s, q), p, s.w.abi.maxAlign);
    }
  }

  /** The next block goes right above this one. */
  ghost predicate Follows(s: State, size: nat, q: nat)
    requires q in s.live && s.w.abi.Ok()
  {
    && !HeaderOverruns(s.w, size) && s.live[q].page == s.w.ar.pageIndex
    && Next(s, q) == s.w.ar.current + s.w.abi.wordBytes
  }

  /** The exact frame of an allocation of any size. Before the new block is filled, memory changes only in
      its header, and the bytes of a live block that the header covers are those that are not intact,
      if the new block follows this one, and none otherwise. */
  lemma HeaderFrame(s: State, size: nat, base: nat, q: nat)
    requires VInv(s) && VAllocOk(s, size, base) && q in s.live
    ensures var (t, p) := VAlloc(s, size, base);
      && p == t.w.ar.last + s.w.abi.wordBytes
      && (forall a: nat :: a in s.w.mem && !Within(a, t.w.ar.last, s.w.abi.wordBytes) ==>
            Peek(t.w.mem, a) == Peek(s.w.mem, a))
      && (forall a: nat :: Within(a, q, s.live[q].size) ==>
            (Within(a, t.w.ar.last, s.w.abi.wordBytes) <==> Follows(s, size, q) && q + Intact(s, q) <= a))
  {
    PlaceKeeps(s.w, size, base);
    HeaderMeets(s, size, base, q);
  }

  lemma HeaderMeets(s: State, size: nat, base: nat, q: nat)
    requires VInv(s) && VAllocOk(s, size, base) && q in s.live
    ensures var (t, p) := VAlloc(s, size, base);
      && p == t.w.ar.last + s.w.abi.wordBytes
      && forall a: nat :: Within(a, q, s.live[q].size) ==>
           (Within(a, t.w.ar.last, s.w.abi.wordBytes) <==> Follows(s, size, q) && q + Intact(s, q) <= a)
  {
    var (t, p) := VAlloc(s, size, base);
    VAllocAbove(s, size, base, q);
    IntactFits(s, q);
    if s.live[q].page == t.w.ar.pageIndex {
      StrictlyAbove(s, q);
    } else if !HeaderOverruns(s.w, size) {
      PlaceFits(s.w, size, base);
    }
  }

  /** The header of a new block meets a live block exactly when it follows that block and that block's end
      is not safe. */
  lemma MeetsIffUnsafe(s: State, size: nat, base: nat, q: nat)
    requires VInv(s) && VAllocOk(s, size, base) && q in s.live
    ensures !Apart(VAlloc(s, size, base).0.w.ar.last, s.w.abi.wordBytes, q, s.live[q].size) <==>
      Follows(s, size, q) && !SafeEnd(s.w.abi, q + s.live[q].size)
  {
    var header := VAlloc(s, size, base).0.w.ar.last;
    VBlock(s, q);
    VAllocAbove(s, size, base, q);
    IntactFits(s, q);
    HeaderMeets(s, size, base, q);
    var top := q + s.live[q].size - 1;
    assert Within(top, q, s.live[q].size);
    if !Apart(header, s.w.abi.wordBytes, q, s.live[q].size) {
      var a := Max(header, q);
      assert Within(a, q, s.live[q].size) && Within(a, header, s.w.abi.wordBytes);
    }
  }

  lemma NewExtentApart(s: State, size: nat, base: nat, q: nat)
    requires VInv(s) && VAllocOk(s, size, base) && q in s.live
    ensures q > s.w.abi.wordBytes
    ensures Apart(VAlloc(s, size, base).0.w.ar.last, s.w.abi.wordBytes + size,
                  q - s.w.abi.wordBytes, s.w.abi.wordBytes + Intact(s, q))
  {
    VBlock(s, q);
    IntactFits(s, q);
    VAllocAbove(s, size, base, q);
    PlaceAbove(s.w, size, base, q - s.w.abi.wordBytes,
               Block(s.w.abi.wordBytes + s.live[q].size, 1, s.live[q].page));
  }

  /** Allocation keeps the header and the intact bytes of every live block. */
  lemma AllocKeepsExtent(s: State, size: nat, base: nat, q: nat)
    requires VInv(s) && VAllocOk(s, size, base) && q in s.live
    ensures var (t, p) := VAlloc(s, size, base); q != p && KeptExtent(s, t, q)
  {
    VAllocPairs(s, size, base);
    PlaceKeeps(s.w, size, base);
    ExtentMapped(s, q);
    NewExtentApart(s, size, base, q);
  }

  /** The header of a new block reads back its size. */
  lemma NewHeaderTrue(s: State, size: nat, base: nat)
    requires VInv(s) && VAllocOk(s, size, base)
    ensures var (t, p) := VAlloc(s, size, base);
      && p > s.w.abi.wordBytes && Mapped(t.w.mem, p - s.w.abi.wordBytes, s.w.abi.wordBytes)
      && Load(t.w.mem, p - s.w.abi.wordBytes, s.w.abi.wordBytes) == Encode(size, s.w.abi.wordBytes)
      && HeaderOf(t.w, p) == size
  {
    VAllocNew(s, size, base);
    PlaceBounds(s.w, size, base);
    var v := HeaderPlace(s.w, size, base);
    var h := VAlloc(s, size, base).0.w.ar.last;
    assert h == v.ar.current && VAlloc(s, size, base).0.w.mem == Store(v.mem, h, Encode(size, s.w.abi.wordBytes));
    LoadStore(v.mem, h, Encode(size, s.w.abi.wordBytes));
    DecodeEncode(size, s.w.abi.wordBytes);
  }

  // ---------------------------------------------------------------- the other calls

  /** The last block, with its header and with what it may grow into, is apart from every other. */
  lemma LastExtentApart(s: State, p: nat, size: nat, q: nat)
    requires VInv(s) && p in s.live && q in s.live && q != p && IsLast(s.w, p)
    requires size <= s.live[p].size || VExtends(s.w, p, size)
    ensures p > s.w.abi.wordBytes && q > s.w.abi.wordBytes
    ensures Apart(p - s.w.abi.wordBytes, s.w.abi.wordBytes + size,
                  q - s.w.abi.wordBytes, s.w.abi.wordBytes + Intact(s, q))
  {
    var word := s.w.abi.wordBytes;
    VBlock(s, p);
    VBlock(s, q);
    IntactFits(s, q);
    if s.live[q].page != s.live[p].page {
      PagesSeparate(s.w, p - word, Block(word + size, 1, s.live[p].page),
                    q - word, Block(word + s.live[q].size, 1, s.live[q].page));
    }
  }

  /** Filling the last block. */
  lemma FillKeepsExtent(s: State, p: nat, data: seq<Byte>, q: nat)
    requires VInv(s) && p in s.live && q in s.live && q != p && IsLast(s.w, p) && |data| <= s.live[p].size
    ensures KeptExtent(s, Poke(s, p, data), q)
  {
    LastExtentApart(s, p, |data|, q);
  }

  lemma ResizeKeepsExtent(s: State, p: nat, size: nat, q: nat)
    requires VInv(s) && p in s.live && q in s.live && q != p && VExtends(s.w, p, size)
    ensures p >= s.w.abi.wordBytes && KeptExtent(s, VResized(s, p, size), q)
  {
    LastExtentApart(s, p, size, q);
  }

  lemma ElsewhereKeepsExtent(s: State, mem: Bytes, q: nat)
    requires VInv(s) && q in s.live && Untouched(s.w, mem)
    ensures KeptExtent(s, WithMemory(s, mem), q)
  {
    VBlock(s, q);
    ElsewhereAgrees(s, mem, s.live[q].page, q - s.w.abi.wordBytes, s.w.abi.wordBytes + s.live[q].size);
  }

  /** Allocate and fill. */
  lemma FilledKeepsExtent(s: State, size: nat, base: nat, data: seq<Byte>, q: nat)
    requires VInv(s) && VAllocOk(s, size, base) && |data| <= size && q in s.live
    ensures var (t, p) := VAlloc(s, size, base); q != p && KeptExtent(s, Poke(t, p, data), q)
  {
    var (t, p) := VAlloc(s, size, base);
    VAllocInv(s, size, base);
    AllocKeepsExtent(s, size, base, q);
    FillKeepsExtent(t, p, data, q);
    KeptTwice(s, t, Poke(t, p, data), q);
  }

  lemma ReallocKeepsExtent(s: State, block: nat, total: nat, base: nat, q: nat)
    requires VInv(s) && VReallocOk(s, block, total, base) && q in s.live && q != block
    ensures KeptExtent(s, VRealloc(s, block, total, base).0, q)
  {
    if block == 0 {
      AllocKeepsExtent(s, total, base, q);
    } else if VExtends(s.w, block, total) {
      ResizeKeepsExtent(s, block, total, q);
    } else {
      var t := VAlloc(s, total, base).0;
      FilledKeepsExtent(s, total, base, Load(t.w.mem, block, Min(HeaderOf(s.w, block), total)), q);
    }
  }

  // ---------------------------------------------------------------- steps

  /** A client store lands in no header. */
  ghost predicate SparesHeaders(s: State, op: VOp) {
    op.Write? ==> forall q :: q in s.live ==> !(q - s.w.abi.wordBytes <= op.block + op.offset < q)
  }

  /** For arbitrary sizes, a step that does not name a block keeps its header and its intact bytes,
      except that a client's store into the tail of another block may hit the header. */
  lemma StepKeepsExtent(s: State, op: VOp, q: nat)
    requires VInv(s) && VOpOk(s, op) && q in s.live && !VTouches(op, q) && SparesHeaders(s, op)
    ensures KeptExtent(s, VStep(s, op).0, q)
  {
    match op
    case Calloc(n, size, base) => FilledKeepsExtent(s, n * size, base, Repeat(0, n * size), q);
    case Reallocarray(block, n, size, base) => ReallocKeepsExtent(s, block, n * size, base, q);
    case Free(block) => VBlock(s, q);
    case Write(block, offset, value) =>
      VBlock(s, q);
      assert PairApart(s, block, q);
    case Rewind(_) =>
    case RewindPercent(_) =>
    case Elsewhere(mem) => ElsewhereKeepsExtent(s, mem, q);
  }

  ghost predicate KeptIntact(s: State, t: State, q: nat)
    requires q in s.live && s.w.abi.Ok()
  {
    && t.w.abi == s.w.abi && q in t.live && t.live[q] == s.live[q]
    && Agree(t.w.mem, s.w.mem, q, Intact(s, q))
  }

  /** For arbitrary sizes of all blocks, a step that does not name a block keeps its intact bytes. */
  lemma StepKeepsIntact(s: State, op: VOp, q: nat)
    requires VInv(s) && VOpOk(s, op) && q in s.live && !VTouches(op, q)
    ensures KeptIntact(s, VStep(s, op).0, q)
  {
    if op.Write? {
      assert PairApart(s, op.block, q);
    } else {
      StepKeepsExtent(s, op, q);
    }
  }

  ghost predicate TrueHeader(s: State, p: nat)
    requires p in s.live
  {
    HeaderOf(s.w, p) == s.live[p].size
  }

  /** Every live header holds its block's size. */
  ghost predicate HeadersTrue(s: State) {
    forall p {:trigger TrueHeader(s, p)} :: p in s.live ==> TrueHeader(s, p)
  }

  lemma OwnHeaderTrue(abi: Abi, mem: Bytes, p: nat, size: nat)
    requires p > abi.wordBytes && size < abi.Limit() && Mapped(mem, p - abi.wordBytes, abi.wordBytes)
    ensures var h: nat := p - abi.wordBytes;
      Decode(Load(Store(mem, h, Encode(size, abi.wordBytes)), h, abi.wordBytes)) == size
  {
    LoadStore(mem, p - abi.wordBytes, Encode(size, abi.wordBytes));
    DecodeEncode(size, abi.wordBytes);
  }

  lemma FilledHeader(s: State, size: nat, base: nat, data: seq<Byte>)
    requires VInv(s) && VAllocOk(s, size, base)
    ensures var (t, p) := VAlloc(s, size, base); HeaderOf(Poke(t, p, data).w, p) == size
  {
    var (t, p) := VAlloc(s, size, base);
    NewHeaderTrue(s, size, base);
    StoreApart(t.w.mem, p, data, p - s.w.abi.wordBytes, s.w.abi.wordBytes);
  }

  /** The header of the block a realloc answers holds the size asked for. */
  lemma ReallocHeader(s: State, block: nat, total: nat, base: nat)
    requires VInv(s) && VReallocOk(s, block, total, base)
    ensures var (t, p) := VRealloc(s, block, total, base); HeaderOf(t.w, p) == total
  {
    if block == 0 {
      NewHeaderTrue(s, total, base);
    } else if VExtends(s.w, block, total) {
      VBlock(s, block);
      ExtentMapped(s, block);
      OwnHeaderTrue(s.w.abi, s.w.mem, block, total);
    } else {
      var t := VAlloc(s, total, base).0;
      FilledHeader(s, total, base, Load(t.w.mem, block, Min(HeaderOf(s.w, block), total)));
    }
  }

  /** What a step does to the live set. */
  lemma StepLive(s: State, op: VOp, q: nat)
    requires VInv(s) && VOpOk(s, op) && q in VStep(s, op).0.live
    ensures var (t, p) := VStep(s, op);
      && t.w.abi == s.w.abi
      && (|| (q in s.live && t.live[q] == s.live[q] && (!VTouches(op, q) || (op.Write? && q == op.block)))
          || (q == p && (op.Calloc? || op.Reallocarray?) && t.live[q].size == op.n * op.size))
  {
    if q in s.live {
      VBlock(s, q);
    }
    if op.Reallocarray? {
      ReallocLive(s, op.block, op.n * op.size, op.base, q);
    }
  }

  lemma ReallocLive(s: State, block: nat, total: nat, base: nat, q: nat)
    requires VInv(s) && VReallocOk(s, block, total, base) && q in VRealloc(s, block, total, base).0.live
    ensures var (t, p) := VRealloc(s, block, total, base);
      && t.w.abi == s.w.abi
      && ((q == p && t.live[q].size == total) || (q in s.live && t.live[q] == s.live[q] && q != block))
  {
    if q in s.live {
      VBlock(s, q);
    }
  }

  /** For arbitrary sizes, every step keeps all headers true, except a client's store into one. */
  lemma StepKeepsHeaders(s: State, op: VOp)
    requires VInv(s) && HeadersTrue(s) && VOpOk(s, op) && SparesHeaders(s, op)
    ensures HeadersTrue(VStep(s, op).0)
  {
    var (t, p) := VStep(s, op);
    forall q | q in t.live ensures TrueHeader(t, q) {
      StepLive(s, op, q);
      if q in s.live && !VTouches(op, q) {
        assert TrueHeader(s, q);
        StepKeepsExtent(s, op, q);
        KeptHeader(s, t, q);
      } else if op.Write? {
        assert TrueHeader(s, q);
        StoreApart(s.w.mem, q + op.offset, [op.value], q - s.w.abi.wordBytes, s.w.abi.wordBytes);
      } else if op.Calloc? {
        FilledHeader(s, op.n * op.size, op.base, Repeat(0, op.n * op.size));
      } else {
        ReallocHeader(s, op.block, op.n * op.size, op.base);
      }
    }
  }
}
