/** Runs of the allocator-protocol calls (calloc, reallocarray, free) with resets that keep any number of
    pages. Every block carries its size in the word below it. First for arbitrary sizes: where blocks
    and headers lie. What they hold is the subject of VtableHeaders and VtableContents. */
module VtableRuns {
  import opened Words
  import opened Memory
  import opened ArenaModel
  import opened ArenaState
  import opened ArenaBlocks

  // ---------------------------------------------------------------- the calls

  /** Allocate a block of `size` bytes and write its header. */
  function HeaderAlloc(w: World, size: nat, base: nat): (World, nat)
    requires w.abi.Ok()
  {
    var v := HeaderPlace(w, size, base);
    var user := v.ar.current + w.abi.wordBytes;
    (v.(ar := v.ar.(current := CursorAfter(w.abi, user + size), last := v.ar.current),
        mem := Store(v.mem, v.ar.current, Encode(size, w.abi.wordBytes))),
     user)
  }

  function VAlloc(s: State, size: nat, base: nat): (State, nat)
    requires s.w.abi.Ok()
  {
    var (w, p) := HeaderAlloc(s.w, size, base);
    (State(w, s.live[p := Block(size, w.abi.wordBytes, w.ar.pageIndex)],
           s.granted + Range(w.ar.last, w.abi.wordBytes + size)), p)
  }

  function VCalloc(s: State, total: nat, base: nat): (State, nat)
    requires s.w.abi.Ok()
  {
    var (t, p) := VAlloc(s, total, base);
    (Poke(t, p, Repeat(0, total)), p)
  }

  /** The block below which `_last` points, resized in place. */
  function VResized(s: State, p: nat, size: nat): State
    requires s.w.abi.Ok() && p in s.live && p >= s.w.abi.wordBytes
  {
    State(s.w.(ar := s.w.ar.(current := CursorAfter(s.w.abi, p + size)),
               mem := Store(s.w.mem, p - s.w.abi.wordBytes, Encode(size, s.w.abi.wordBytes))),
          s.live[p := s.live[p].(size := size)], s.granted + Range(p, size))
  }

  /** The size stored below a block. */
  function HeaderOf(w: World, p: nat): nat {
    if p < w.abi.wordBytes then 0
    else Decode(Load(w.mem, p - w.abi.wordBytes, w.abi.wordBytes))
  }

  predicate IsLast(w: World, p: nat) {
    p == w.ar.last + w.abi.wordBytes
  }

  predicate VExtends(w: World, p: nat, size: nat) {
    IsLast(w, p) && p + size <= w.ar.sentinel
  }

  /** The old size is the one read from the header. */
  function VRealloc(s: State, block: nat, total: nat, base: nat): (State, nat)
    requires s.w.abi.Ok() && (block == 0 || (block in s.live && block >= s.w.abi.wordBytes))
  {
    if block == 0 then VAlloc(s, total, base)
    else if VExtends(s.w, block, total) then (VResized(s, block, total), block)
    else
      var (t, p) := VAlloc(s, total, base);
      (Retired(Poke(t, p, Load(t.w.mem, block, Min(HeaderOf(s.w, block), total))), block), p)
  }

  function VFree(s: State, block: nat): State
    requires block == 0 || block > s.w.abi.wordBytes
  {
    if block == 0 then s
    else if IsLast(s.w, block) then
      Retired(s.(w := s.w.(ar := s.w.ar.(current := block - s.w.abi.wordBytes, last := 0))), block)
    else Retired(s, block)
  }

  // ---------------------------------------------------------------- the invariant

  /** Where a block of page i starts: at an aligned address, except that the first block after a reset
      that keeps pages starts one word into the first page. */
  ghost predicate StartOk(w: World, p: nat, i: nat)
    requires i < |w.ar.pages| && w.abi.Ok()
  {
    Aligned(p, w.abi.maxAlign) || (i == 0 && p == w.ar.pages[0] + w.abi.wordBytes)
  }

  /** The next block starts a word above the cursor. The cursor may have passed the sentinel. */
  ghost predicate VCursorOk(w: World) {
    && PagesOk(w) && PageOpen(w)
    && (w.ar.pages != [] ==>
          && w.ar.pages[w.ar.pageIndex] <= w.ar.current
          && StartOk(w, w.ar.current + w.abi.wordBytes, w.ar.pageIndex))
  }

  /** The first address above a block where another block may start. */
  function Next(s: State, p: nat): nat
    requires p in s.live && s.w.abi.maxAlign > 0
  {
    AlignUp(p + s.live[p].size, s.w.abi.maxAlign)
  }

  /** A block has room for its header in its page; on the current page the next block comes above
      it, and so does the last one. */
  ghost predicate HeaderOk(s: State, p: nat)
    requires p in s.live && s.w.abi.Ok()
  {
    var b := s.live[p];
    && b.page < |s.w.ar.pages| && StartOk(s.w, p, b.page)
    && s.w.ar.pages[b.page] + s.w.abi.wordBytes <= p
    && Range(p - s.w.abi.wordBytes, s.w.abi.wordBytes) <= s.granted
  }

  ghost predicate Stacked(s: State, p: nat)
    requires p in s.live && s.w.abi.Ok()
  {
    s.live[p].page == s.w.ar.pageIndex ==>
      && Next(s, p) <= s.w.ar.current + s.w.abi.wordBytes
      && (s.w.ar.last != 0 && !IsLast(s.w, p) ==> Next(s, p) <= s.w.ar.last + s.w.abi.wordBytes)
  }

  ghost predicate HeadersOk(s: State)
    requires s.w.abi.Ok()
  {
    forall p {:trigger HeaderOk(s, p)} :: p in s.live ==> HeaderOk(s, p)
  }

  /** `_last` is the header of a live block of the current page, the cursor follows it, and every
      other block of the page ends below it. */
  ghost predicate StackOk(s: State)
    requires s.w.abi.Ok()
  {
    && (s.w.ar.last != 0 ==>
          var p := s.w.ar.last + s.w.abi.wordBytes;
          && p in s.live && s.live[p].page == s.w.ar.pageIndex
          && s.w.ar.current + s.w.abi.wordBytes == Next(s, p))
    && forall p {:trigger Stacked(s, p)} :: p in s.live ==> Stacked(s, p)
  }

  ghost predicate VInv(s: State) {
    && VCursorOk(s.w) && BlocksOk(s) && HeadersOk(s) && StackOk(s)
    && BlocksApart(s) && FreshIsZero(s)
  }

  /** What the invariant says of one block. */
  lemma VBlock(s: State, p: nat)
    requires VInv(s) && p in s.live
    ensures BlockOk(s, p) && HeaderOk(s, p) && Stacked(s, p) && PageOk(s.w, s.live[p].page)
    ensures p > s.w.abi.wordBytes
  {
    assert BlockOk(s, p) && HeaderOk(s, p) && Stacked(s, p) && PageOk(s.w, s.live[p].page);
  }

  // ---------------------------------------------------------------- starts of blocks

  /** Every start is a multiple of the word size, so headers are stored and read as aligned words. */
  lemma StartIsWordAligned(w: World, p: nat, i: nat)
    requires PagesOk(w) && i < |w.ar.pages| && StartOk(w, p, i)
    ensures Aligned(p, w.abi.wordBytes)
  {
    PowersNest(w.abi.maxAlign, w.abi.wordBytes);
    if Aligned(p, w.abi.maxAlign) {
      MultipleOfMultiple(p, w.abi.maxAlign, w.abi.wordBytes);
    } else {
      assert PageOk(w, 0);
      MultipleOfMultiple(w.ar.pages[0], w.abi.maxAlign, w.abi.wordBytes);
      NextMultiple(w.ar.pages[0], w.abi.wordBytes);
    }
  }

  /** The rounded end of a block lies a whole alignment above the start of its page. */
  lemma NextAbovePage(w: World, i: nat, end: nat)
    requires PagesOk(w) && i < |w.ar.pages| && w.ar.pages[i] < end
    ensures w.ar.pages[i] + w.abi.maxAlign <= AlignUp(end, w.abi.maxAlign)
  {
    assert PageOk(w, i);
    AlignUpAligned(end, w.abi.maxAlign);
    MultiplesApart(w.ar.pages[i], AlignUp(end, w.abi.maxAlign), w.abi.maxAlign);
  }

  // ---------------------------------------------------------------- allocation

  ghost predicate VAllocOk(s: State, size: nat, base: nat) {
    size > 0 && s.w.abi.maxAlign > 0 && HeaderAnswer(s.w, size, base)
  }

  lemma PlacePages(w: World, size: nat, base: nat)
    requires PagesOk(w) && HeaderAnswer(w, size, base)
    ensures PagesOk(HeaderPlace(w, size, base))
  {
    if HeaderOverruns(w, size) {
      NewPagePages(w, size + w.abi.maxAlign, base);
      PagesOkFrame(NewPage(w, size + w.abi.maxAlign, base), HeaderPlace(w, size, base));
    }
  }

  lemma VAllocPages(w: World, size: nat, base: nat)
    requires PagesOk(w) && HeaderAnswer(w, size, base)
    ensures PagesOk(HeaderAlloc(w, size, base).0)
  {
    PlacePages(w, size, base);
    PagesOkFrame(HeaderPlace(w, size, base), HeaderAlloc(w, size, base).0);
  }

  /** A freshly opened page has room for header and block above the alignment gap. */
  lemma OpenedFits(w: World, size: nat, base: nat)
    requires PagesOk(w) && PageOpen(w) && size > 0 && HeaderAnswer(w, size, base) && HeaderOverruns(w, size)
    ensures var v := HeaderPlace(w, size, base);
      && v.ar.pages != [] && v.ar.pageIndex < |v.ar.pages|
      && v.ar.pages[v.ar.pageIndex] > 0
      && v.ar.pages[v.ar.pageIndex] <= v.ar.current
      && Aligned(v.ar.current + w.abi.wordBytes, w.abi.maxAlign)
      && v.ar.current + w.abi.wordBytes + size <= v.ar.sentinel
  {
    var page := NewPage(w, size + w.abi.maxAlign, base).ar.current;
    NewPageOpens(w, size + w.abi.maxAlign, base);
    assert Aligned(page + w.abi.maxAlign, w.abi.maxAlign) by {
      NextMultiple(page, w.abi.maxAlign);
    }
    assert HeaderPlace(w, size, base).ar.current + w.abi.wordBytes == page + w.abi.maxAlign;
  }

  lemma OpenedPage(w: World, size: nat, base: nat)
    requires PagesOk(w) && PageOpen(w) && size > 0 && HeaderAnswer(w, size, base) && HeaderOverruns(w, size)
    ensures var v := HeaderPlace(w, size, base);
      && PageOpen(v.(ar := v.ar.(last := 0))) && v.abi == w.abi && v.ar.last == w.ar.last
      && (w.ar.pages != [] ==> v.ar.pageIndex > w.ar.pageIndex)
  {
    NewPageOpens(w, size + w.abi.maxAlign, base);
  }

  /** After the page decision header and block fit without a second check: the header starts at the
      cursor, inside the page, and the block ends within the sentinel. */
  lemma PlaceFits(w: World, size: nat, base: nat)
    requires VCursorOk(w) && size > 0 && HeaderAnswer(w, size, base)
    ensures var v := HeaderPlace(w, size, base);
      && PageOpen(v.(ar := v.ar.(last := 0))) && v.ar.pages != []
      && v.abi == w.abi && v.ar.last == w.ar.last
      && v.ar.pages[v.ar.pageIndex] > 0
      && v.ar.pages[v.ar.pageIndex] <= v.ar.current
      && StartOk(v, v.ar.current + w.abi.wordBytes, v.ar.pageIndex)
      && v.ar.current + w.abi.wordBytes + size <= v.ar.sentinel
      && (if HeaderOverruns(w, size) then w.ar.pages != [] ==> v.ar.pageIndex > w.ar.pageIndex
          else v == w && w.ar.pages != [])
  {
    if HeaderOverruns(w, size) {
      OpenedFits(w, size, base);
      OpenedPage(w, size, base);
    } else {
      assert PageOk(w, w.ar.pageIndex);
    }
  }

  /** Placing a header changes no mapped byte and no page's extent. */
  lemma PlaceKeeps(w: World, size: nat, base: nat)
    requires PagesOk(w) && HeaderAnswer(w, size, base)
    ensures var v := HeaderPlace(w, size, base);
      && v.ar.pageSize == w.ar.pageSize
      && |w.ar.pages| <= |v.ar.pages| && v.ar.pages[..|w.ar.pages|] == w.ar.pages
      && w.mem.Keys <= v.mem.Keys
      && (forall a :: a in w.mem ==> Peek(v.mem, a) == Peek(w.mem, a))
      && (forall i: nat :: i < |w.ar.pages| ==> v.PageBytes(i) == w.PageBytes(i))
  {
    if HeaderOverruns(w, size) {
      NewPageKeeps(w, size + w.abi.maxAlign, base);
    }
  }

  /** Where a header goes is mapped, and rounding up the end of its block does not wrap. */
  lemma PlaceBounds(w: World, size: nat, base: nat)
    requires VCursorOk(w) && size > 0 && HeaderAnswer(w, size, base)
    ensures var v := HeaderPlace(w, size, base);
      && v.abi == w.abi && size < w.abi.Limit()
      && Mapped(v.mem, v.ar.current, w.abi.wordBytes)
      && v.ar.sentinel + w.abi.maxAlign <= w.abi.Limit()
  {
    PlaceFits(w, size, base);
    PlacePages(w, size, base);
    var v := HeaderPlace(w, size, base);
    assert PageOk(v, v.ar.pageIndex);
  }

  /** The new block starts at or above the end of every block of its page, rounded up; with its
      header it is apart from blocks on other pages. */
  lemma PlaceAbove(w: World, size: nat, base: nat, q: nat, b: Block)
    requires VCursorOk(w) && size > 0 && HeaderAnswer(w, size, base) && InPage(w, q, b)
    ensures var (v, p) := HeaderAlloc(w, size, base);
      && InPage(v, q, b)
      && v.ar.pages[b.page] == w.ar.pages[b.page]
      && p == v.ar.last + w.abi.wordBytes
      && (if b.page == v.ar.pageIndex then
            b.page == w.ar.pageIndex && !HeaderOverruns(w, size) && p == w.ar.current + w.abi.wordBytes
          else Apart(p - w.abi.wordBytes, w.abi.wordBytes + size, q, b.size))
  {
    PlaceFits(w, size, base);
    PlaceKeeps(w, size, base);
    var v := HeaderPlace(w, size, base);
    assert v.ar.pages[b.page] == w.ar.pages[b.page];
    if b.page != v.ar.pageIndex {
      PlacePages(w, size, base);
      PagesSeparate(v, q, b, v.ar.current, Block(w.abi.wordBytes + size, 1, v.ar.pageIndex));
    }
  }

  lemma VAllocAbove(s: State, size: nat, base: nat, q: nat)
    requires VInv(s) && VAllocOk(s, size, base) && q in s.live
    ensures var (w, p) := HeaderAlloc(s.w, size, base);
      && p != q && InPage(s.w, q, s.live[q]) && InPage(w, q, s.live[q])
      && p == w.ar.last + s.w.abi.wordBytes
      && w.ar.pages[s.live[q].page] == s.w.ar.pages[s.live[q].page]
      && (if s.live[q].page == w.ar.pageIndex then
            !HeaderOverruns(s.w, size) && s.live[q].page == s.w.ar.pageIndex && Next(s, q) <= p
          else Apart(p - s.w.abi.wordBytes, s.w.abi.wordBytes + size, q, s.live[q].size))
  {
    VBlock(s, q);
    PlaceAbove(s.w, size, base, q, s.live[q]);
  }

  lemma NewStartAligned(w: World, size: nat, base: nat)
    requires VCursorOk(w) && size > 0 && HeaderAnswer(w, size, base)
    ensures Aligned(HeaderAlloc(w, size, base).1, w.abi.wordBytes)
  {
    PlaceFits(w, size, base);
    PlacePages(w, size, base);
    var v := HeaderPlace(w, size, base);
    StartIsWordAligned(v, v.ar.current + w.abi.wordBytes, v.ar.pageIndex);
  }

  lemma VAllocNew(s: State, size: nat, base: nat)
    requires VInv(s) && VAllocOk(s, size, base)
    ensures var (t, p) := VAlloc(s, size, base);
      && p > s.w.abi.wordBytes && BlockOk(t, p) && HeaderOk(t, p) && Stacked(t, p)
      && t.w.ar.last != 0 && IsLast(t.w, p)
      && t.w.ar.current + s.w.abi.wordBytes == Next(t, p)
  {
    PlaceFits(s.w, size, base);
    NewStartAligned(s.w, size, base);
    var (t, p) := VAlloc(s, size, base);
    assert Range(p - s.w.abi.wordBytes, s.w.abi.wordBytes) <= t.granted;
    assert Range(p, size) <= t.granted;
  }

  lemma VAllocBlocks(s: State, size: nat, base: nat)
    requires VInv(s) && VAllocOk(s, size, base)
    ensures PagesOk(VAlloc(s, size, base).0.w)
    ensures BlocksOk(VAlloc(s, size, base).0) && HeadersOk(VAlloc(s, size, base).0)
    ensures StackOk(VAlloc(s, size, base).0)
  {
    VAllocPages(s.w, size, base);
    var (t, p) := VAlloc(s, size, base);
    VAllocNew(s, size, base);
    forall q | q in t.live ensures BlockOk(t, q) && HeaderOk(t, q) && Stacked(t, q) {
      if q != p {
        VAllocOther(s, size, base, q);
      }
    }
  }

  lemma VAllocOther(s: State, size: nat, base: nat, q: nat)
    requires VInv(s) && VAllocOk(s, size, base) && q in s.live
    ensures var t := VAlloc(s, size, base).0;
      q != VAlloc(s, size, base).1 ==> BlockOk(t, q) && HeaderOk(t, q) && Stacked(t, q)
  {
    VBlock(s, q);
    VAllocAbove(s, size, base, q);
  }

  lemma VAllocPairs(s: State, size: nat, base: nat)
    requires VInv(s) && VAllocOk(s, size, base)
    ensures BlocksApart(VAlloc(s, size, base).0)
    ensures VAlloc(s, size, base).1 !in s.live
  {
    var (t, p) := VAlloc(s, size, base);
    forall q | q in s.live ensures Apart(p, size, q, s.live[q].size) && p != q {
      VAllocAbove(s, size, base, q);
    }
    forall q, r | q in t.live && r in t.live && q != r ensures PairApart(t, q, r) {
      if q != p && r != p {
        assert PairApart(s, q, r);
      }
    }
  }

  lemma PlaceIsZero(s: State, size: nat, base: nat)
    requires VInv(s) && VAllocOk(s, size, base)
    ensures FreshIsZero(s.(w := HeaderPlace(s.w, size, base)))
  {
    if HeaderOverruns(s.w, size) {
      NewPageIsZero(s, size + s.w.abi.maxAlign, base);
    }
  }

  lemma VAllocZero(s: State, size: nat, base: nat)
    requires VInv(s) && VAllocOk(s, size, base)
    ensures FreshIsZero(VAlloc(s, size, base).0)
  {
    PlaceIsZero(s, size, base);
    var (t, p) := VAlloc(s, size, base);
    var v := HeaderPlace(s.w, size, base);
    var u := State(v, s.live, t.granted);
    assert FreshIsZero(u);
    var data := Encode(size, s.w.abi.wordBytes);
    assert Range(v.ar.current, |data|) <= u.granted;
    PokeIsZero(u, v.ar.current, data);
  }

  /** Allocation keeps the invariant, whatever the size. */
  lemma VAllocInv(s: State, size: nat, base: nat)
    requires VInv(s) && VAllocOk(s, size, base)
    ensures VInv(VAlloc(s, size, base).0)
  {
    VAllocCursor(s, size, base);
    VAllocBlocks(s, size, base);
    VAllocPairs(s, size, base);
    VAllocZero(s, size, base);
  }

  lemma VAllocCursor(s: State, size: nat, base: nat)
    requires VCursorOk(s.w) && VAllocOk(s, size, base)
    ensures VCursorOk(VAlloc(s, size, base).0.w)
  {
    VAllocPages(s.w, size, base);
    CursorFollows(s.w, size, base);
  }

  lemma CursorFollows(w: World, size: nat, base: nat)
    requires VCursorOk(w) && size > 0 && HeaderAnswer(w, size, base)
    ensures var v := HeaderAlloc(w, size, base).0;
      && PageOpen(v) && v.ar.pages != []
      && v.ar.pages[v.ar.pageIndex] <= v.ar.current
      && Aligned(v.ar.current + w.abi.wordBytes, w.abi.maxAlign)
  {
    PlaceFits(w, size, base);
    AlignUpAligned(HeaderAlloc(w, size, base).1 + size, w.abi.maxAlign);
  }

  // ---------------------------------------------------------------- stores, resizing, freeing

  /** The same arena and grants, and no live block that was not there. */
  ghost predicate SameArena(s: State, t: State) {
    && t.w.abi == s.w.abi && t.w.ar == s.w.ar && t.w.owned == s.w.owned && t.granted == s.granted
    && forall p :: p in t.live ==> p in s.live && t.live[p] == s.live[p]
  }

  /** The invariant does not depend on bytes other than never-granted ones, and fewer live blocks
      do as well as long as the last one stays. */
  lemma SamePlaces(s: State, t: State)
    requires VInv(s) && SameArena(s, t) && PagesOk(t.w) && FreshIsZero(t)
    requires s.w.ar.last != 0 ==> s.w.ar.last + s.w.abi.wordBytes in t.live
    ensures VInv(t)
  {
    FewerApart(s, t);
    SameBlocks(s, t);
    assert VCursorOk(t.w);
  }

  lemma SameBlocks(s: State, t: State)
    requires VInv(s) && SameArena(s, t)
    requires s.w.ar.last != 0 ==> s.w.ar.last + s.w.abi.wordBytes in t.live
    ensures BlocksOk(t) && HeadersOk(t) && StackOk(t)
  {
    forall q | q in t.live ensures BlockOk(t, q) && HeaderOk(t, q) && Stacked(t, q) {
      VBlock(s, q);
      SameBlock(s, t, q);
    }
    if s.w.ar.last != 0 {
      var p := s.w.ar.last + s.w.abi.wordBytes;
      assert t.live[p] == s.live[p] && Next(t, p) == Next(s, p);
    }
  }

  lemma VFewer(s: State, t: State)
    requires VInv(s) && SameArena(s, t) && FreshIsZero(t) && t.w.mem.Keys == s.w.mem.Keys
    requires s.w.ar.last != 0 ==> s.w.ar.last + s.w.abi.wordBytes in t.live
    ensures VInv(t)
  {
    PagesOkFrame(s.w, t.w);
    SamePlaces(s, t);
  }

  lemma SameBlock(s: State, t: State, q: nat)
    requires t.w.abi == s.w.abi && t.w.ar == s.w.ar && t.w.owned == s.w.owned && t.granted == s.granted
    requires s.w.abi.Ok() && q in s.live && q in t.live && t.live[q] == s.live[q]
    requires BlockOk(s, q) && HeaderOk(s, q) && Stacked(s, q)
    ensures BlockOk(t, q) && HeaderOk(t, q) && Stacked(t, q)
  {
  }

  /** Stores into granted memory keep the invariant. */
  lemma VPokeInv(s: State, p: nat, data: seq<Byte>)
    requires VInv(s) && Range(p, |data|) <= s.granted
    ensures VInv(Poke(s, p, data))
  {
    PokeIsZero(s, p, data);
    VFewer(s, Poke(s, p, data));
  }

  lemma VPokeInBlock(s: State, p: nat, k: nat, data: seq<Byte>)
    requires VInv(s) && p in s.live && k + |data| <= s.live[p].size
    ensures VInv(Poke(s, p + k, data))
  {
    VBlock(s, p);
    assert Range(p + k, |data|) <= Range(p, s.live[p].size);
    VPokeInv(s, p + k, data);
  }

  lemma VFillInv(t: State, p: nat, data: seq<Byte>)
    requires VInv(t) && p in t.live && |data| <= t.live[p].size
    ensures VInv(Poke(t, p, data))
  {
    VPokeInBlock(t, p, 0, data);
  }

  lemma VRetiredInv(s: State, p: nat)
    requires VInv(s) && (s.w.ar.last == 0 || !IsLast(s.w, p))
    ensures VInv(Retired(s, p))
  {
    VFewer(s, Retired(s, p));
  }

  /** Everything between the last block and the sentinel is its own to grow into. */
  lemma VResizedApart(s: State, p: nat, size: nat, q: nat)
    requires VInv(s) && p in s.live && q in s.live && q != p && VExtends(s.w, p, size)
    ensures Apart(p, size, q, s.live[q].size)
    ensures s.live[q].page == s.w.ar.pageIndex ==> Next(s, q) <= p
  {
    VBlock(s, p);
    VBlock(s, q);
    if s.live[q].page != s.live[p].page {
      PagesSeparate(s.w, p, Block(size, 1, s.live[p].page), q, s.live[q]);
    }
  }

  lemma VResizedOther(s: State, p: nat, size: nat, q: nat)
    requires VInv(s) && p in s.live && q in s.live && q != p && VExtends(s.w, p, size)
    ensures p >= s.w.abi.wordBytes
    ensures var t := VResized(s, p, size); BlockOk(t, q) && HeaderOk(t, q) && Stacked(t, q)
  {
    VBlock(s, p);
    VBlock(s, q);
    VResizedApart(s, p, size, q);
  }

  lemma VResizedOwn(s: State, p: nat, size: nat)
    requires VInv(s) && p in s.live && size > 0 && VExtends(s.w, p, size)
    ensures p >= s.w.abi.wordBytes
    ensures var t := VResized(s, p, size);
      && BlockOk(t, p) && HeaderOk(t, p) && Stacked(t, p)
      && t.live[p].page == t.w.ar.pageIndex
      && t.w.ar.last == s.w.ar.last && t.w.ar.current + s.w.abi.wordBytes == Next(t, p)
  {
    VBlock(s, p);
  }

  lemma VResizedBlocks(s: State, p: nat, size: nat)
    requires VInv(s) && p in s.live && size > 0 && VExtends(s.w, p, size)
    ensures p >= s.w.abi.wordBytes
    ensures var t := VResized(s, p, size); BlocksOk(t) && HeadersOk(t) && StackOk(t)
  {
    VResizedOwn(s, p, size);
    var t := VResized(s, p, size);
    forall q | q in t.live ensures BlockOk(t, q) && HeaderOk(t, q) && Stacked(t, q) {
      if q != p {
        VResizedOther(s, p, size, q);
      }
    }
  }

  lemma VResizedPairs(s: State, p: nat, size: nat)
    requires VInv(s) && p in s.live && size > 0 && VExtends(s.w, p, size)
    ensures BlocksApart(VResized(s, p, size))
  {
    var t := VResized(s, p, size);
    forall q, r | q in t.live && r in t.live && q != r ensures PairApart(t, q, r) {
      if q == p {
        VResizedApart(s, p, size, r);
      } else if r == p {
        VResizedApart(s, p, size, q);
      } else {
        assert PairApart(s, q, r);
      }
    }
  }

  lemma VResizedInv(s: State, p: nat, size: nat)
    requires VInv(s) && p in s.live && size > 0 && VExtends(s.w, p, size)
    ensures p >= s.w.abi.wordBytes && VInv(VResized(s, p, size))
  {
    VResizedBlocks(s, p, size);
    VResizedPairs(s, p, size);
    VResizedCursor(s, p, size);
    VResizedZero(s, p, size);
  }

  lemma VResizedCursor(s: State, p: nat, size: nat)
    requires VInv(s) && p in s.live && size > 0 && VExtends(s.w, p, size)
    ensures p >= s.w.abi.wordBytes && VCursorOk(VResized(s, p, size).w)
  {
    VBlock(s, p);
    AlignUpAligned(p + size, s.w.abi.maxAlign);
    PagesOkFrame(s.w, VResized(s, p, size).w);
  }

  lemma VResizedZero(s: State, p: nat, size: nat)
    requires VInv(s) && p in s.live && VExtends(s.w, p, size)
    ensures p >= s.w.abi.wordBytes && FreshIsZero(VResized(s, p, size))
  {
    VBlock(s, p);
    var u := s.(granted := s.granted + Range(p, size));
    var data := Encode(size, s.w.abi.wordBytes);
    assert Range(p - s.w.abi.wordBytes, |data|) <= u.granted;
    PokeIsZero(u, p - s.w.abi.wordBytes, data);
  }

  lemma PoppedBlock(s: State, block: nat, q: nat)
    requires VInv(s) && block > s.w.abi.wordBytes && IsLast(s.w, block) && q in s.live && q != block
    ensures var t := VFree(s, block); BlockOk(t, q) && HeaderOk(t, q) && Stacked(t, q)
  {
    VBlock(s, q);
    StillStacked(s, block, q);
  }

  lemma StillStacked(s: State, block: nat, q: nat)
    requires s.w.abi.Ok() && block > s.w.abi.wordBytes && IsLast(s.w, block) && q in s.live && q != block
    requires BlockOk(s, q) && HeaderOk(s, q) && Stacked(s, q)
    ensures var t := VFree(s, block); BlockOk(t, q) && HeaderOk(t, q) && Stacked(t, q)
  {
  }

  /** Freeing the last block gives its space back. */
  lemma VPoppedInv(s: State, block: nat)
    requires VInv(s) && block > s.w.abi.wordBytes && IsLast(s.w, block)
    ensures VInv(VFree(s, block))
  {
    var t := VFree(s, block);
    assert VCursorOk(t.w) by {
      VBlock(s, block);
      PagesOkFrame(s.w, t.w);
    }
    FewerApart(s, t);
    forall q | q in t.live ensures BlockOk(t, q) && HeaderOk(t, q) && Stacked(t, q) {
      PoppedBlock(s, block, q);
    }
  }

  /** Freeing keeps the invariant: the last block gives its space back, any other does nothing. */
  lemma VFreeInv(s: State, block: nat)
    requires VInv(s) && (block == 0 || block > s.w.abi.wordBytes)
    ensures VInv(VFree(s, block))
  {
    if block != 0 {
      if IsLast(s.w, block) {
        VPoppedInv(s, block);
      } else {
        VRetiredInv(s, block);
      }
    }
  }

  /** A reset keeps the invariant, whatever the number of pages it keeps. */
  lemma VResetInv(s: State, count: nat)
    requires VInv(s)
    ensures VInv(Reset(s, count))
  {
    ResetPages(s.w, count);
    ResetIsZero(s.w, count);
  }

  /** What others do outside the pages keeps the invariant. */
  lemma VElsewhereInv(s: State, mem: Bytes)
    requires VInv(s) && Untouched(s.w, mem)
    ensures VInv(WithMemory(s, mem))
  {
    ElsewherePages(s, mem);
    ElsewhereZero(s, mem);
    SamePlaces(s, WithMemory(s, mem));
  }
}
