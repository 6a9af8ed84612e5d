/** Runs of the raw calls (alloc, calloc, realloc, memdup, strdup, reset) with clients that write
    only inside live blocks. */
module RawRuns {
  import opened Words
  import opened Memory
  import opened ArenaModel
  import opened ArenaState
  import opened ArenaBlocks

  // ---------------------------------------------------------------- the invariant

  /** A block of the current page ends at or below the cursor, and, unless it is the last
      allocation, at or below the start of that. */
  ghost predicate Under(s: State, q: nat)
    requires q in s.live
  {
    s.live[q].page == s.w.ar.pageIndex ==>
      && q + s.live[q].size <= s.w.ar.current
      && (s.w.ar.last != 0 && q != s.w.ar.last ==> q + s.live[q].size <= s.w.ar.last)
  }

  /** The last allocation is live, lies in the current page and ends at the cursor, and it is the
      highest block there. */
  ghost predicate LastIsTop(s: State) {
    && (s.w.ar.last != 0 ==>
          && s.w.ar.last in s.live
          && s.live[s.w.ar.last].page == s.w.ar.pageIndex
          && s.w.ar.last + s.live[s.w.ar.last].size == s.w.ar.current)
    && forall q {:trigger Under(s, q)} :: q in s.live ==> Under(s, q)
  }

  /** Where the blocks lie. */
  ghost predicate Placed(s: State) {
    && CursorOk(s.w) && BlocksOk(s) && BlocksApart(s) && LastIsTop(s)
  }

  ghost predicate RawInv(s: State) {
    PagesOk(s.w) && Placed(s) && FreshIsZero(s)
  }

  // ---------------------------------------------------------------- the calls

  function Granting(s: State, w: World, p: nat, size: nat, alignment: nat): State {
    State(w, s.live[p := Block(size, alignment, w.ar.pageIndex)], s.granted + Range(p, size))
  }

  function RawAlloc(s: State, size: nat, alignment: nat, base: nat): (State, nat)
    requires alignment > 0
  {
    var (w, p) := Alloc(s.w, size, alignment, base);
    (Granting(s, w, p, size, alignment), p)
  }

  function RawCalloc(s: State, size: nat, alignment: nat, base: nat): (State, nat)
    requires alignment > 0
  {
    var (t, p) := RawAlloc(s, size, alignment, base);
    (Poke(t, p, Repeat(0, size)), p)
  }

  function Resized(s: State, p: nat, size: nat): State
    requires p in s.live
  {
    State(s.w.(ar := s.w.ar.(current := p + size)),
          s.live[p := s.live[p].(size := size)], s.granted + Range(p, size))
  }

  function RawRealloc(s: State, block: nat, oldSize: nat, newSize: nat, alignment: nat, base: nat): (State, nat)
    requires alignment > 0 && (block == 0 || block in s.live)
  {
    if block == 0 then RawAlloc(s, newSize, alignment, base)
    else if ExtendsInPlace(s.w.ar, block, newSize) then (Resized(s, block, newSize), block)
    else
      var (t, p) := RawAlloc(s, newSize, alignment, base);
      (Retired(Poke(t, p, Load(t.w.mem, block, Min(oldSize, newSize))), block), p)
  }

  function RawMemdup(s: State, src: nat, size: nat, base: nat): (State, nat) {
    var (t, p) := RawAlloc(s, size, 1, base);
    (Poke(t, p, Load(t.w.mem, src, size)), p)
  }

  // ---------------------------------------------------------------- allocation

  ghost predicate AllocOk(s: State, size: nat, alignment: nat, base: nat) {
    && size > 0 && alignment > 0 && s.w.abi.maxAlign > 0
    && AllocAnswer(s.w, size, alignment, base)
  }

  lemma AllocPages(w: World, size: nat, alignment: nat, base: nat)
    requires PagesOk(w) && size > 0 && alignment > 0 && AllocAnswer(w, size, alignment, base)
    ensures PagesOk(Alloc(w, size, alignment, base).0)
  {
    if Overruns(w, size, alignment) {
      NewPagePages(w, size + alignment - 1, base);
      PagesOkFrame(NewPage(w, size + alignment - 1, base), Alloc(w, size, alignment, base).0);
    } else {
      PagesOkFrame(w, Alloc(w, size, alignment, base).0);
    }
  }

  /** After the page decision the request fits without a second check: the aligned start is at or
      above everything handed out on the page, and the end is within the sentinel. */
  lemma AllocFits(w: World, size: nat, alignment: nat, base: nat)
    requires PagesOk(w) && CursorOk(w) && size > 0 && alignment > 0 && AllocAnswer(w, size, alignment, base)
    ensures var (v, p) := Alloc(w, size, alignment, base);
      && CursorOk(v.(ar := v.ar.(last := 0))) && v.ar.pages != []
      && v.ar.pages[v.ar.pageIndex] <= p && p > 0 && Aligned(p, alignment)
      && v.ar.last == p && v.ar.current == p + size <= v.ar.sentinel
      && (if Overruns(w, size, alignment) then
            w.ar.pages != [] ==> v.ar.pageIndex > w.ar.pageIndex
          else w.ar.pages != [] && v.ar.pages == w.ar.pages && v.ar.pageIndex == w.ar.pageIndex
               && v.ar.sentinel == w.ar.sentinel && w.ar.current <= p)
  {
    if Overruns(w, size, alignment) {
      NewPageOpens(w, size + alignment - 1, base);
      AlignUpAligned(NewPage(w, size + alignment - 1, base).ar.current, alignment);
    } else {
      assert PageOk(w, w.ar.pageIndex);
      AlignUpAligned(w.ar.current, alignment);
    }
  }

  /** Allocation changes no mapped byte and no page's extent. */
  lemma AllocKeeps(w: World, size: nat, alignment: nat, base: nat)
    requires PagesOk(w) && size > 0 && alignment > 0 && AllocAnswer(w, size, alignment, base)
    ensures var v := Alloc(w, size, alignment, base).0;
      && v.abi == w.abi && v.ar.pageSize == w.ar.pageSize
      && v.ar.pages[..Min(|w.ar.pages|, |v.ar.pages|)] == w.ar.pages
      && w.mem.Keys <= v.mem.Keys
      && (forall a :: a in w.mem ==> Peek(v.mem, a) == Peek(w.mem, a))
      && (forall i: nat :: i < |w.ar.pages| ==> v.PageBytes(i) == w.PageBytes(i))
  {
    if Overruns(w, size, alignment) {
      NewPageKeeps(w, size + alignment - 1, base);
    }
  }

  /** A new block lies apart from a block that was on the page list, and above it if on the
      same page. */
  lemma AllocApartInWorld(w: World, size: nat, alignment: nat, base: nat, q: nat, b: Block)
    requires PagesOk(w) && CursorOk(w) && size > 0 && alignment > 0 && AllocAnswer(w, size, alignment, base)
    requires InPage(w, q, b) && (b.page == w.ar.pageIndex ==> q + b.size <= w.ar.current)
    ensures var (v, p) := Alloc(w, size, alignment, base);
      && Apart(p, size, q, b.size)
      && InPage(v, q, b)
      && (b.page == v.ar.pageIndex ==> q + b.size <= p)
  {
    AllocFits(w, size, alignment, base);
    AllocPages(w, size, alignment, base);
    AllocKeeps(w, size, alignment, base);
    var (v, p) := Alloc(w, size, alignment, base);
    assert v.ar.pages[b.page] == w.ar.pages[b.page];
    if b.page != v.ar.pageIndex {
      PagesSeparate(v, q, b, p, Block(size, alignment, v.ar.pageIndex));
    }
  }

  /** A new block lies apart from every live block. */
  lemma AllocApart(s: State, size: nat, alignment: nat, base: nat, q: nat)
    requires RawInv(s) && AllocOk(s, size, alignment, base) && q in s.live
    ensures var (t, p) := RawAlloc(s, size, alignment, base);
      && Apart(p, size, q, s.live[q].size) && p != q
      && InPage(t.w, q, s.live[q])
      && (s.live[q].page == t.w.ar.pageIndex ==> q + s.live[q].size <= p)
  {
    assert BlockOk(s, q) && Under(s, q);
    AllocApartInWorld(s.w, size, alignment, base, q, s.live[q]);
  }

  lemma AllocBlocks(s: State, size: nat, alignment: nat, base: nat)
    requires RawInv(s) && AllocOk(s, size, alignment, base)
    ensures BlocksOk(RawAlloc(s, size, alignment, base).0)
    ensures LastIsTop(RawAlloc(s, size, alignment, base).0)
  {
    AllocFits(s.w, size, alignment, base);
    AllocPages(s.w, size, alignment, base);
    var (t, p) := RawAlloc(s, size, alignment, base);
    assert PageOk(t.w, t.w.ar.pageIndex);
    forall q | q in t.live ensures BlockOk(t, q) && Under(t, q) {
      if q != p {
        AllocApart(s, size, alignment, base, q);
        assert BlockOk(s, q);
      }
    }
  }

  lemma AllocPairs(s: State, size: nat, alignment: nat, base: nat)
    requires RawInv(s) && AllocOk(s, size, alignment, base)
    ensures BlocksApart(RawAlloc(s, size, alignment, base).0)
    ensures RawAlloc(s, size, alignment, base).1 !in s.live
  {
    var (t, p) := RawAlloc(s, size, alignment, base);
    forall q | q in s.live ensures Apart(p, size, q, s.live[q].size) && p != q {
      AllocApart(s, size, alignment, base, q);
    }
    forall q, r | q in t.live && r in t.live && q != r ensures PairApart(t, q, r) {
      if q != p && r != p {
        assert PairApart(s, q, r);
      }
    }
  }

  /** Allocation keeps the invariant. */
  lemma RawAllocInv(s: State, size: nat, alignment: nat, base: nat)
    requires RawInv(s) && AllocOk(s, size, alignment, base)
    ensures RawInv(RawAlloc(s, size, alignment, base).0)
  {
    AllocBlocks(s, size, alignment, base);
    AllocPairs(s, size, alignment, base);
    AllocFits(s.w, size, alignment, base);
    AllocPages(s.w, size, alignment, base);
    AllocIsZero(s, size, alignment, base);
  }

  lemma AllocIsZero(s: State, size: nat, alignment: nat, base: nat)
    requires PagesOk(s.w) && PageOpen(s.w) && FreshIsZero(s) && AllocOk(s, size, alignment, base)
    ensures FreshIsZero(s.(w := Alloc(s.w, size, alignment, base).0))
    ensures FreshIsZero(RawAlloc(s, size, alignment, base).0)
  {
    if Overruns(s.w, size, alignment) {
      NewPageIsZero(s, size + alignment - 1, base);
    }
  }

  /** Allocation changes the contents of no live block. */
  lemma RawAllocContents(s: State, size: nat, alignment: nat, base: nat)
    requires RawInv(s) && AllocOk(s, size, alignment, base)
    ensures var (t, p) := RawAlloc(s, size, alignment, base);
      p !in s.live && Keeps(s, t, {})
  {
    AllocKeeps(s.w, size, alignment, base);
    AllocPairs(s, size, alignment, base);
    var (t, p) := RawAlloc(s, size, alignment, base);
    forall q | q in s.live ensures KeptBlock(s, t, q) {
      BlockMapped(s, q);
      AgreeLoad(t.w.mem, s.w.mem, q, s.live[q].size);
    }
  }

  // ---------------------------------------------------------------- stores into blocks

  lemma PokePlaced(s: State, p: nat, data: seq<Byte>)
    requires Placed(s)
    ensures Placed(Poke(s, p, data))
  {
    var t := Poke(s, p, data);
    forall q | q in t.live ensures BlockOk(t, q) && Under(t, q) {
      assert BlockOk(s, q) && Under(s, q);
    }
    forall q, r | q in t.live && r in t.live && q != r ensures PairApart(t, q, r) {
      assert PairApart(s, q, r);
    }
  }

  /** Storing inside a live block keeps the invariant. */
  lemma PokeInBlock(s: State, p: nat, k: nat, data: seq<Byte>)
    requires RawInv(s) && p in s.live && k + |data| <= s.live[p].size
    ensures RawInv(Poke(s, p + k, data))
  {
    PokePlaced(s, p + k, data);
    PagesOkFrame(s.w, Poke(s, p + k, data).w);
    assert Range(p + k, |data|) <= s.granted by {
      assert BlockOk(s, p);
      assert Range(p + k, |data|) <= Range(p, s.live[p].size);
    }
    PokeIsZero(s, p + k, data);
  }

  /** What others do outside the pages keeps the invariant. */
  lemma ElsewhereInv(s: State, mem: Bytes)
    requires RawInv(s) && Untouched(s.w, mem)
    ensures RawInv(WithMemory(s, mem))
  {
    var t := WithMemory(s, mem);
    ElsewherePages(s, mem);
    ElsewhereZero(s, mem);
    forall q | q in t.live ensures BlockOk(t, q) && Under(t, q) {
      assert BlockOk(s, q) && Under(s, q);
    }
    FewerApart(s, t);
  }

  /** Resizing the last block in place reaches no other live block. */
  lemma ResizedApart(s: State, p: nat, size: nat, q: nat)
    requires RawInv(s) && p in s.live && q in s.live && q != p && ExtendsInPlace(s.w.ar, p, size)
    ensures Apart(p, size, q, s.live[q].size)
    ensures s.live[q].page == s.w.ar.pageIndex ==> q + s.live[q].size <= p
    ensures InPage(s.w, p, Block(size, 1, s.live[p].page))
  {
    assert BlockOk(s, p) && BlockOk(s, q) && Under(s, q);
    if s.live[q].page != s.live[p].page {
      PagesSeparate(s.w, p, Block(size, 1, s.live[p].page), q, s.live[q]);
    }
  }

  /** Resizing the last block in place keeps the invariant, whatever alignment was asked for. */
  lemma ResizedInv(s: State, p: nat, size: nat)
    requires RawInv(s) && p in s.live && size > 0 && ExtendsInPlace(s.w.ar, p, size)
    ensures RawInv(Resized(s, p, size))
  {
    var t := Resized(s, p, size);
    PagesOkFrame(s.w, t.w);
    forall q | q in t.live ensures BlockOk(t, q) && Under(t, q) {
      assert BlockOk(s, q);
      if q != p {
        ResizedApart(s, p, size, q);
      }
    }
    forall q, r | q in t.live && r in t.live && q != r ensures PairApart(t, q, r) {
      if q == p {
        ResizedApart(s, p, size, r);
      } else if r == p {
        ResizedApart(s, p, size, q);
      } else {
        assert PairApart(s, q, r);
      }
    }
  }

  lemma RetiredInv(s: State, p: nat)
    requires RawInv(s) && p != s.w.ar.last
    ensures RawInv(Retired(s, p))
  {
    var t := Retired(s, p);
    forall q | q in t.live ensures BlockOk(t, q) && Under(t, q) {
      assert BlockOk(s, q) && Under(s, q);
    }
    forall q, r | q in t.live && r in t.live && q != r ensures PairApart(t, q, r) {
      assert PairApart(s, q, r);
    }
  }

  lemma ResetInv(s: State, count: nat)
    requires RawInv(s)
    ensures RawInv(Reset(s, count))
  {
    ResetPages(s.w, count);
    ResetIsZero(s.w, count);
  }

  // ---------------------------------------------------------------- realloc

  /** What a caller of realloc owes: NULL, or a live block with its true size. */
  ghost predicate ReallocOk(s: State, block: nat, oldSize: nat, newSize: nat, alignment: nat, base: nat) {
    && newSize > 0 && alignment > 0
    && (block == 0 || (block in s.live && oldSize == s.live[block].size))
    && (block == 0 || !ExtendsInPlace(s.w.ar, block, newSize) ==> AllocOk(s, newSize, alignment, base))
  }

  lemma RawReallocInv(s: State, block: nat, oldSize: nat, newSize: nat, alignment: nat, base: nat)
    requires RawInv(s) && ReallocOk(s, block, oldSize, newSize, alignment, base)
    ensures RawInv(RawRealloc(s, block, oldSize, newSize, alignment, base).0)
  {
    if block == 0 {
      RawAllocInv(s, newSize, alignment, base);
    } else if ExtendsInPlace(s.w.ar, block, newSize) {
      ResizedInv(s, block, newSize);
    } else {
      RawAllocInv(s, newSize, alignment, base);
      AllocApart(s, newSize, alignment, base, block);
      var (t, p) := RawAlloc(s, newSize, alignment, base);
      var data := Load(t.w.mem, block, Min(oldSize, newSize));
      PokeInBlock(t, p, 0, data);
      RetiredInv(Poke(t, p, data), block);
    }
  }

  /** The moving path of realloc copies the prefix and keeps every other block. */
  lemma MovedContents(s: State, block: nat, n: nat, size: nat, alignment: nat, base: nat)
    requires RawInv(s) && AllocOk(s, size, alignment, base)
    requires block in s.live && n <= size && n <= s.live[block].size
    ensures var (t, p) := RawAlloc(s, size, alignment, base);
      var u := Retired(Poke(t, p, Load(t.w.mem, block, n)), block);
      && p !in s.live && u.live.Keys == s.live.Keys - {block} + {p}
      && u.live[p].size == size
      && Keeps(s, u, {block})
      && Contents(u, p)[..n] == Contents(s, block)[..n]
  {
    var (t, p) := RawAlloc(s, size, alignment, base);
    RawAllocContents(s, size, alignment, base);
    RawAllocInv(s, size, alignment, base);
    BlockMapped(t, p);
    CopyThenRetire(s, t, block, n, p);
  }

  lemma ResizedContents(s: State, p: nat, size: nat)
    requires p in s.live
    ensures Keeps(s, Resized(s, p, size), {p})
    ensures var n := Min(s.live[p].size, size);
      Contents(Resized(s, p, size), p)[..n] == Contents(s, p)[..n]
  {
  }

  /** Both paths of realloc keep the common prefix and every other block. */
  lemma RawReallocContents(s: State, block: nat, oldSize: nat, newSize: nat, alignment: nat, base: nat)
    requires RawInv(s) && ReallocOk(s, block, oldSize, newSize, alignment, base) && block != 0
    ensures var (t, p) := RawRealloc(s, block, oldSize, newSize, alignment, base);
      && t.live.Keys == s.live.Keys - {block} + {p} && t.live[p].size == newSize
      && Keeps(s, t, {block})
      && Contents(t, p)[..Min(oldSize, newSize)] == Contents(s, block)[..Min(oldSize, newSize)]
      && (p != block ==> p !in s.live)
  {
    if ExtendsInPlace(s.w.ar, block, newSize) {
      ResizedContents(s, block, newSize);
    } else {
      MovedContents(s, block, Min(oldSize, newSize), newSize, alignment, base);
    }
  }

  /** The result of realloc has the requested alignment unless the block was extended in place
      from a start that does not; the in-place path ignores the request. */
  lemma ReallocAlignment(s: State, block: nat, oldSize: nat, newSize: nat, alignment: nat, base: nat)
    requires RawInv(s) && ReallocOk(s, block, oldSize, newSize, alignment, base)
    ensures var p := RawRealloc(s, block, oldSize, newSize, alignment, base).1;
      Aligned(p, alignment) <==>
        !(block != 0 && ExtendsInPlace(s.w.ar, block, newSize) && !Aligned(block, alignment))
  {
    if block == 0 || !ExtendsInPlace(s.w.ar, block, newSize) {
      AllocFits(s.w, newSize, alignment, base);
    }
  }

  // ---------------------------------------------------------------- sources of copies

  ghost predicate OutsidePages(w: World, src: nat, n: nat) {
    n > 0 && forall i: nat :: i < |w.ar.pages| ==> Apart(w.ar.pages[i], w.PageBytes(i), src, n)
  }

  ghost predicate InsideBlock(s: State, p: nat, src: nat, n: nat) {
    p in s.live && p <= src && src + n <= p + s.live[p].size
  }

  /** Memory a caller may pass as a source: foreign memory, or part of a live block. */
  ghost predicate Readable(s: State, src: nat, n: nat) {
    && Mapped(s.w.mem, src, n)
    && (OutsidePages(s.w, src, n) || exists p :: InsideBlock(s, p, src, n))
  }

  /** The source of a copy keeps its bytes through the allocation and does not overlap the copy. */
  lemma SourceApart(s: State, size: nat, alignment: nat, base: nat, src: nat, n: nat)
    requires RawInv(s) && AllocOk(s, size, alignment, base) && Readable(s, src, n)
    ensures var (t, p) := RawAlloc(s, size, alignment, base);
      Apart(p, size, src, n) && Mapped(t.w.mem, src, n) && Load(t.w.mem, src, n) == Load(s.w.mem, src, n)
  {
    AllocKeeps(s.w, size, alignment, base);
    var (t, p) := RawAlloc(s, size, alignment, base);
    AgreeLoad(t.w.mem, s.w.mem, src, n);
    if OutsidePages(s.w, src, n) {
      AllocFits(s.w, size, alignment, base);
      NewBlockOutside(s.w, size, alignment, base, src, n);
    } else {
      var q :| InsideBlock(s, q, src, n);
      AllocApart(s, size, alignment, base, q);
    }
  }

  lemma NewBlockOutside(w: World, size: nat, alignment: nat, base: nat, src: nat, n: nat)
    requires PagesOk(w) && CursorOk(w) && size > 0 && alignment > 0 && AllocAnswer(w, size, alignment, base)
    requires OutsidePages(w, src, n) && Mapped(w.mem, src, n)
    ensures Apart(Alloc(w, size, alignment, base).1, size, src, n)
  {
    AllocFits(w, size, alignment, base);
    var (v, p) := Alloc(w, size, alignment, base);
    if Overruns(w, size, alignment) && !Recycles(w.ar, size + alignment - 1) {
      assert PageAnswer(w, size + alignment - 1, base);
      assert base <= p && p + size <= base + Max(size + alignment - 1, w.ar.pageSize);
      MappedApart(w.mem, base, Max(size + alignment - 1, w.ar.pageSize), src, n);
    } else {
      var k := v.ar.pageIndex;
      assert PageOk(w, k);
      assert Apart(w.ar.pages[k], w.PageBytes(k), src, n);
    }
  }

  lemma MappedApart(mem: Bytes, base: nat, size: nat, src: nat, n: nat)
    requires Unmapped(mem, base, size) && Mapped(mem, src, n)
    ensures n == 0 || size == 0 || Apart(base, size, src, n)
  {
    assert n > 0 ==> src in mem;
    assert src <= base < src + n ==> base in mem;
  }

  lemma RawMemdupOk(s: State, src: nat, size: nat, base: nat)
    requires RawInv(s) && AllocOk(s, size, 1, base) && Readable(s, src, size)
    ensures var (t, p) := RawMemdup(s, src, size, base);
      && RawInv(t) && p !in s.live && t.live.Keys == s.live.Keys + {p} && t.live[p].size == size
      && Keeps(s, t, {}) && Contents(t, p) == Load(s.w.mem, src, size)
  {
    SourceApart(s, size, 1, base, src, size);
    FilledOk(s, size, 1, base, Load(s.w.mem, src, size));
  }

  /** Allocate and fill the new block. */
  lemma FilledOk(s: State, size: nat, alignment: nat, base: nat, data: seq<Byte>)
    requires RawInv(s) && AllocOk(s, size, alignment, base) && |data| == size
    ensures var (u, p) := RawAlloc(s, size, alignment, base);
      var t := Poke(u, p, data);
      && RawInv(t) && p !in s.live && t.live.Keys == s.live.Keys + {p} && t.live[p].size == size
      && Keeps(s, t, {}) && Contents(t, p) == data
  {
    var (u, p) := RawAlloc(s, size, alignment, base);
    RawAllocInv(s, size, alignment, base);
    RawAllocContents(s, size, alignment, base);
    FillInv(u, p, data);
    BlockMapped(u, p);
    FilledContents(s, u, p, data);
  }

  lemma FillInv(s: State, p: nat, data: seq<Byte>)
    requires RawInv(s) && p in s.live && |data| <= s.live[p].size
    ensures RawInv(Poke(s, p, data))
  {
    PokeInBlock(s, p, 0, data);
  }

  // ---------------------------------------------------------------- operations and the abstract heap

  /** One step of a client, or of the rest of the machine. `base` is the answer of the system should
      a page be needed; `data` is what the source of a copy holds. */
  datatype RawOp =
    | Get(size: nat, alignment: nat, base: nat)
    | GetZeroed(size: nat, alignment: nat, base: nat)
    | Resize(block: nat, oldSize: nat, newSize: nat, alignment: nat, base: nat)
    | Dup(src: nat, data: seq<Byte>, base: nat)
    | DupString(src: nat, text: seq<Byte>, base: nat)
    | Write(block: nat, offset: nat, value: Byte)
    | Rewind(count: nat)
    | RewindPercent(percent: nat)
    | Elsewhere(mem: Bytes)

  ghost predicate RawOpOk(s: State, op: RawOp) {
    match op
    case Get(size, alignment, base) => AllocOk(s, size, alignment, base)
    case GetZeroed(size, alignment, base) => AllocOk(s, size, alignment, base)
    case Resize(block, oldSize, newSize, alignment, base) =>
      ReallocOk(s, block, oldSize, newSize, alignment, base)
    case Dup(src, data, base) =>
      AllocOk(s, |data|, 1, base) && Readable(s, src, |data|) && Load(s.w.mem, src, |data|) == data
    case DupString(src, text, base) =>
      && 0 !in text && AllocOk(s, |text| + 1, 1, base) && Readable(s, src, |text| + 1)
      && Load(s.w.mem, src, |text| + 1) == text + [0]
    case Write(block, offset, value) => block in s.live && offset < s.live[block].size
    case Rewind(_) => true
    case RewindPercent(_) => true
    case Elsewhere(mem) => Untouched(s.w, mem)
  }

  function RawStep(s: State, op: RawOp): (State, nat)
    requires RawOpOk(s, op)
  {
    match op
    case Get(size, alignment, base) => RawAlloc(s, size, alignment, base)
    case GetZeroed(size, alignment, base) => RawCalloc(s, size, alignment, base)
    case Resize(block, oldSize, newSize, alignment, base) =>
      RawRealloc(s, block, oldSize, newSize, alignment, base)
    case Dup(src, data, base) => RawMemdup(s, src, |data|, base)
    case DupString(src, text, base) => RawMemdup(s, src, |text| + 1, base)
    case Write(block, offset, value) => (Poke(s, block + offset, [value]), 0)
    case Rewind(count) => (Reset(s, count), 0)
    case RewindPercent(percent) => (Reset(s, KeepCount(|s.w.ar.pages|, percent)), 0)
    case Elsewhere(mem) => (WithMemory(s, mem), 0)
  }

  /** The abstract heap: blocks of bytes without pages, cursors or memory. */
  ghost predicate HeapStep(h1: Heap, op: RawOp, p: nat, h2: Heap) {
    match op
    case Get(size, alignment, _) => Replaces(h1, {}, p, size, h2) && alignment > 0 && Aligned(p, alignment)
    case GetZeroed(size, alignment, _) =>
      && Replaces(h1, {}, p, size, h2) && alignment > 0 && Aligned(p, alignment)
      && h2[p] == Repeat(0, size)
    case Resize(block, oldSize, newSize, _, _) =>
      if block == 0 then Replaces(h1, {}, p, newSize, h2)
      else
        && block in h1 && Replaces(h1, {block}, p, newSize, h2)
        && oldSize == |h1[block]|
        && h2[p][..Min(oldSize, newSize)] == h1[block][..Min(oldSize, newSize)]
    case Dup(_, data, _) => Replaces(h1, {}, p, |data|, h2) && h2[p] == data
    case DupString(_, text, _) => Replaces(h1, {}, p, |text| + 1, h2) && h2[p] == text + [0]
    case Write(block, offset, value) =>
      block in h1 && offset < |h1[block]| && h2 == h1[block := Splice(h1[block], offset, value)]
    case Rewind(_) => h2 == map[]
    case RewindPercent(_) => h2 == map[]
    case Elsewhere(_) => h2 == h1
  }

  /** Every step keeps the invariant. */
  lemma RawStepInv(s: State, op: RawOp)
    requires RawInv(s) && RawOpOk(s, op)
    ensures RawInv(RawStep(s, op).0)
  {
    match op
    case Get(size, alignment, base) => RawAllocInv(s, size, alignment, base);
    case GetZeroed(size, alignment, base) => FilledOk(s, size, alignment, base, Repeat(0, size));
    case Resize(block, oldSize, newSize, alignment, base) =>
      RawReallocInv(s, block, oldSize, newSize, alignment, base);
    case Dup(src, data, base) => RawMemdupOk(s, src, |data|, base);
    case DupString(src, text, base) => RawMemdupOk(s, src, |text| + 1, base);
    case Write(block, offset, value) => PokeInBlock(s, block, offset, [value]);
    case Rewind(count) => ResetInv(s, count);
    case RewindPercent(percent) => ResetInv(s, KeepCount(|s.w.ar.pages|, percent));
    case Elsewhere(mem) => ElsewhereInv(s, mem);
  }

  lemma GetRefines(s: State, size: nat, alignment: nat, base: nat)
    requires RawInv(s) && AllocOk(s, size, alignment, base)
    ensures var (t, p) := RawAlloc(s, size, alignment, base);
      Replaces(HeapOf(s), {}, p, size, HeapOf(t)) && Aligned(p, alignment)
  {
    var (t, p) := RawAlloc(s, size, alignment, base);
    AllocFits(s.w, size, alignment, base);
    RawAllocInv(s, size, alignment, base);
    RawAllocContents(s, size, alignment, base);
    AsReplacement(s, t, {}, p);
  }

  lemma FillRefines(s: State, size: nat, alignment: nat, base: nat, data: seq<Byte>)
    requires RawInv(s) && AllocOk(s, size, alignment, base) && |data| == size
    ensures var (u, p) := RawAlloc(s, size, alignment, base);
      var t := Poke(u, p, data);
      Replaces(HeapOf(s), {}, p, size, HeapOf(t)) && Aligned(p, alignment) && HeapOf(t)[p] == data
  {
    var (u, p) := RawAlloc(s, size, alignment, base);
    AllocFits(s.w, size, alignment, base);
    FilledOk(s, size, alignment, base, data);
    AsReplacement(s, Poke(u, p, data), {}, p);
  }

  lemma ResizeRefines(s: State, block: nat, oldSize: nat, newSize: nat, alignment: nat, base: nat)
    requires RawInv(s) && ReallocOk(s, block, oldSize, newSize, alignment, base) && block != 0
    ensures var (t, p) := RawRealloc(s, block, oldSize, newSize, alignment, base);
      && Replaces(HeapOf(s), {block}, p, newSize, HeapOf(t))
      && HeapOf(t)[p][..Min(oldSize, newSize)] == HeapOf(s)[block][..Min(oldSize, newSize)]
  {
    var (t, p) := RawRealloc(s, block, oldSize, newSize, alignment, base);
    RawReallocInv(s, block, oldSize, newSize, alignment, base);
    RawReallocContents(s, block, oldSize, newSize, alignment, base);
    AsReplacement(s, t, {block}, p);
  }

  /** Every step of the arena is a step of the abstract heap. */
  lemma RawStepRefines(s: State, op: RawOp)
    requires RawInv(s) && RawOpOk(s, op)
    ensures var (t, p) := RawStep(s, op); HeapStep(HeapOf(s), op, p, HeapOf(t))
  {
    match op
    case Get(size, alignment, base) => GetRefines(s, size, alignment, base);
    case GetZeroed(size, alignment, base) => FillRefines(s, size, alignment, base, Repeat(0, size));
    case Resize(block, oldSize, newSize, alignment, base) =>
      if block == 0 {
        GetRefines(s, newSize, alignment, base);
      } else {
        ResizeRefines(s, block, oldSize, newSize, alignment, base);
      }
    case Dup(src, data, base) =>
      SourceApart(s, |data|, 1, base, src, |data|);
      FillRefines(s, |data|, 1, base, data);
    case DupString(src, text, base) =>
      SourceApart(s, |text| + 1, 1, base, src, |text| + 1);
      FillRefines(s, |text| + 1, 1, base, text + [0]);
    case Write(block, offset, value) =>
      BlockMapped(s, block);
      WriteRefines(s, block, offset, value);
    case Rewind(_) =>
    case RewindPercent(_) =>
    case Elsewhere(mem) => ElsewhereContents(s, mem);
  }
}
