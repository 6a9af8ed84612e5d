/** struct mulle_arena with its methods, each proved to do what the value model says. `owned` stands for
    what the system allocator remembers of this arena's pages: free is called with an address only. The
    ghost fields are the client's bookkeeping: the live blocks and the addresses granted since the last
    reset. */
module Arena {
  import opened Words
  import opened Memory
  import opened ArenaModel
  import opened ArenaState
  import opened ArenaBlocks
  import opened RawRuns
  import opened VtableRuns
  import opened VtableSteps
  import opened VtableHeaders
  import opened VtableContents

  class MulleArena {
    const abi: Abi
    const sys: Machine
    var pages: seq<nat>
    var current: nat
    var sentinel: nat
    var last: nat
    var pageSize: nat
    var pageIndex: nat
    var owned: map<nat, nat>
    ghost var live: map<nat, Block>
    ghost var granted: set<nat>

    ghost function Snapshot(): World
      reads this, sys
    {
      World(abi, ArenaModel.Arena(pages, current, sentinel, last, pageSize, pageIndex), owned, sys.bytes)
    }

    ghost function Abs(): State
      reads this, sys
    {
      State(Snapshot(), live, granted)
    }

    constructor (abi: Abi, size: nat, sys: Machine)
      requires abi.Ok()
      ensures this.abi == abi && this.sys == sys
      ensures Abs() == State(World(abi, InitArena(size), map[], sys.bytes), map[], {})
      ensures RawInv(Abs()) && VSafe(Abs())
    {
      this.abi := abi;
      this.sys := sys;
      pages := [];
      current, sentinel, last, pageIndex := 0, 0, 0, 0;
      owned := map[];
      pageSize := if size == 0 then DEFAULT_PAGE_SIZE else size;
      live, granted := map[], {};
    }

    /** Round up by adding and clearing the mask. */
    method AlignPointer(p: nat, alignment: nat) returns (r: nat)
      requires alignment > 0 && IsPowerOfTwo(alignment) && p + (alignment - 1) < abi.Limit()
      ensures r == AlignUp(p, alignment)
    {
      r := AlignWord(p, alignment, 8 * abi.wordBytes);
      AlignWordIsAlignUp(p, alignment, 8 * abi.wordBytes);
    }

    method NewPage(minSize: nat, base: nat)
      requires PagesOk(Snapshot())
      requires !Recycles(Snapshot().ar, minSize) ==> PageAnswer(Snapshot(), minSize, base)
      modifies this`pages, this`current, this`sentinel, this`pageIndex, this`owned, sys
      ensures Snapshot() == ArenaModel.NewPage(old(Snapshot()), minSize, base)
    {
      var actualSize := pageSize;
      var n := |pages|;
      if minSize <= actualSize && pageIndex + 1 < n {
        pageIndex := pageIndex + 1;
        var page := pages[pageIndex];
        current := page;
        sentinel := page + actualSize;
        return;
      }
      if minSize > actualSize {
        actualSize := minSize;
      }
      sys.Calloc(base, actualSize);
      owned := owned[base := actualSize];
      pages := pages + [base];
      pageIndex := |pages| - 1;
      current := base;
      sentinel := base + actualSize;
    }

    /** Give the pages from `lo` on back to the system. */
    method GiveBack(lo: nat)
      requires PagesOk(Snapshot()) && lo <= |pages|
      modifies this`owned, sys
      ensures owned == old(owned) - PageSet(pages[lo..])
      ensures sys.bytes == Dropped(old(sys.bytes), old(owned), pages, lo, |pages|)
    {
      ghost var w := Snapshot();
      for i := lo to |pages|
        invariant owned == w.owned - PageSet(pages[lo..i])
        invariant sys.bytes == Dropped(w.mem, w.owned, pages, lo, i)
      {
        StillOwned(w, lo, i);
        OneMore(pages, lo, i);
        sys.Free(pages[i], owned[pages[i]]);
        owned := owned - {pages[i]};
      }
      assert pages[lo..|pages|] == pages[lo..];
    }

    /** Free all pages: exactly their bytes are unmapped, and no other byte differs. */
    method Done()
      requires PagesOk(Snapshot())
      modifies this`pages, this`owned, sys
      ensures pages == [] && owned == map[]
      ensures forall a: nat :: a in sys.bytes <==> a in old(sys.bytes) && !InPages(old(Snapshot()), a)
      ensures forall a: nat :: a in sys.bytes ==> sys.bytes[a] == old(sys.bytes)[a]
    {
      ghost var w := Snapshot();
      PagesAccounted(w);
      GiveBack(0);
      forall a: nat
        ensures a in sys.bytes <==> a in w.mem && !InPages(w, a)
        ensures a in sys.bytes ==> sys.bytes[a] == w.mem[a]
      {
        AllDropped(w, a);
      }
      assert pages[0..] == pages;
      pages := [];
    }

    /** Clear the first `keep` of the old pages and list them again. */
    method Rebuild(oldPages: seq<nat>, keep: nat)
      requires keep <= |oldPages| && pages == []
      requires forall i: nat {:trigger oldPages[i]} :: i < keep ==> Mapped(sys.bytes, oldPages[i], pageSize)
      modifies this`pages, sys
      ensures pages == oldPages[..keep]
      ensures sys.bytes == Zeroed(old(sys.bytes), oldPages, pageSize, keep)
    {
      for i := 0 to keep
        invariant pages == oldPages[..i]
        invariant sys.bytes == Zeroed(old(sys.bytes), oldPages, pageSize, i)
        invariant sys.bytes.Keys == old(sys.bytes.Keys)
      {
        var page := oldPages[i];
        sys.Memset(page, 0, pageSize);
        pages := pages + [page];
      }
    }

    /** Give all but the first `keep` pages back and clear those. */
    method KeepFirst(keep: nat)
      requires PagesOk(Snapshot()) && keep <= |pages|
      modifies this`pages, this`owned, sys
      ensures pages == old(pages)[..keep]
      ensures owned == old(owned) - PageSet(old(pages)[keep..])
      ensures sys.bytes == Zeroed(Dropped(old(sys.bytes), old(owned), old(pages), keep, |old(pages)|),
                                  old(pages), pageSize, keep)
    {
      ghost var w := Snapshot();
      GiveBack(keep);
      var oldPages := pages;
      pages := [];
      KeptStillMapped(w, keep, sys.bytes);
      Rebuild(oldPages, keep);
    }

    method ResetKeepPages(keepCount: nat)
      requires PagesOk(Snapshot()) && PageOpen(Snapshot())
      modifies this`pages, this`current, this`sentinel, this`last, this`pageIndex, this`owned,
               this`live, this`granted, sys
      ensures Abs() == State(ResetKeep(old(Snapshot()), keepCount), map[], {})
    {
      ghost var w := Snapshot();
      live, granted := map[], {};
      var n := |pages|;
      if n == 0 {
        return;
      }
      var keep := if keepCount > n then n else keepCount;
      KeepFirst(keep);
      if keep > 0 {
        var page := pages[0];
        current := page;
        sentinel := page + pageSize;
      } else {
        current := 0;
        sentinel := 0;
      }
      last := 0;
      pageIndex := 0;
    }

    method ResetKeepPercentage(percent: nat)
      requires PagesOk(Snapshot()) && PageOpen(Snapshot())
      requires |pages| * Min(percent, 100) + 99 < abi.Limit()
      modifies this`pages, this`current, this`sentinel, this`last, this`pageIndex, this`owned,
               this`live, this`granted, sys
      ensures Abs() == State(ResetKeep(old(Snapshot()), KeepCount(|old(pages)|, percent)), map[], {})
    {
      var n := |pages|;
      var p := if percent > 100 then 100 else percent;
      var keep := (n * p + 99) / 100;
      ResetKeepPages(keep);
    }

    // -------------------------------------------------------------- raw calls

    /** The sums a raw allocation forms stay below the address limit, and the alignment passes the
        bit test. */
    ghost predicate RawArgs(size: nat, alignment: nat)
      reads this
    {
      && size > 0 && alignment > 0 && And(alignment, alignment - 1) == 0
      && current + alignment - 1 + size < abi.Limit()
    }

    /** The page decision: where the block goes, on this page or on the next one. */
    method Reserve(size: nat, alignment: nat, base: nat) returns (aligned: nat)
      requires PagesOk(Snapshot()) && PageOpen(Snapshot()) && RawArgs(size, alignment)
      requires AllocAnswer(Snapshot(), size, alignment, base)
      modifies this`pages, this`current, this`sentinel, this`pageIndex, this`owned, sys
      ensures Snapshot() == if Overruns(old(Snapshot()), size, alignment)
                            then ArenaModel.NewPage(old(Snapshot()), size + alignment - 1, base)
                            else old(Snapshot())
      ensures aligned == AlignUp(current, alignment)
    {
      BitTestIsPowerOfTwo(alignment);
      aligned := AlignPointer(current, alignment);
      var end := aligned + size;
      if end > sentinel {
        OpenedBelowLimit(Snapshot(), size, alignment, base);
        NewPage(size + alignment - 1, base);
        aligned := AlignPointer(current, alignment);
      }
    }

    method Alloc(size: nat, alignment: nat, base: nat) returns (p: nat)
      requires RawInv(Abs()) && AllocOk(Abs(), size, alignment, base) && RawArgs(size, alignment)
      modifies this, sys
      ensures (Abs(), p) == RawAlloc(old(Abs()), size, alignment, base)
      ensures RawInv(Abs())
    {
      ghost var s := Abs();
      p := Reserve(size, alignment, base);
      current := p + size;
      last := p;
      live := live[p := Block(size, alignment, pageIndex)];
      granted := granted + Range(p, size);
      assert Abs() == RawAlloc(s, size, alignment, base).0;
      assert RawInv(Abs()) by {
        RawAllocInv(s, size, alignment, base);
      }
    }

    method Calloc(size: nat, alignment: nat, base: nat) returns (p: nat)
      requires RawInv(Abs()) && AllocOk(Abs(), size, alignment, base) && RawArgs(size, alignment)
      modifies this, sys
      ensures (Abs(), p) == RawCalloc(old(Abs()), size, alignment, base)
      ensures RawInv(Abs())
    {
      ghost var s := Abs();
      p := Alloc(size, alignment, base);
      BlockMapped(Abs(), p);
      FilledOk(s, size, alignment, base, Repeat(0, size));
      sys.Memset(p, 0, size);
    }

    /** Allocate anew, copy, abandon the old block: the slow path of realloc. */
    method Relocate(block: nat, n: nat, newSize: nat, alignment: nat, base: nat) returns (p: nat)
      requires RawInv(Abs()) && AllocOk(Abs(), newSize, alignment, base) && RawArgs(newSize, alignment)
      requires block in live && n <= newSize && n <= live[block].size
      modifies this, sys
      ensures var (t, q) := RawAlloc(old(Abs()), newSize, alignment, base);
        p == q && Abs() == Retired(Poke(t, q, Load(t.w.mem, block, n)), block)
    {
      ghost var s := Abs();
      AllocApart(s, newSize, alignment, base, block);
      p := Alloc(newSize, alignment, base);
      BlockMapped(Abs(), p);
      BlockMapped(Abs(), block);
      sys.Memcpy(p, block, n);
      live := live - {block};
    }

    method Realloc(block: nat, oldSize: nat, newSize: nat, alignment: nat, base: nat) returns (p: nat)
      requires RawInv(Abs()) && ReallocOk(Abs(), block, oldSize, newSize, alignment, base)
      requires RawArgs(newSize, alignment)
      modifies this, sys
      ensures (Abs(), p) == RawRealloc(old(Abs()), block, oldSize, newSize, alignment, base)
      ensures RawInv(Abs())
    {
      RawReallocInv(Abs(), block, oldSize, newSize, alignment, base);
      if block == 0 {
        p := Alloc(newSize, alignment, base);
        return;
      }
      if block == last {
        var end := last + newSize;
        if end <= sentinel {
          current := end;
          live := live[block := live[block].(size := newSize)];
          granted := granted + Range(block, newSize);
          return block;
        }
      }
      p := Relocate(block, if oldSize < newSize then oldSize else newSize, newSize, alignment, base);
    }

    method Memdup(src: nat, size: nat, base: nat) returns (p: nat)
      requires RawInv(Abs()) && AllocOk(Abs(), size, 1, base) && RawArgs(size, 1)
      requires Readable(Abs(), src, size)
      modifies this, sys
      ensures (Abs(), p) == RawMemdup(old(Abs()), src, size, base)
      ensures RawInv(Abs())
    {
      ghost var s := Abs();
      SourceApart(s, size, 1, base, src, size);
      RawMemdupOk(s, src, size, base);
      p := Alloc(size, 1, base);
      BlockMapped(Abs(), p);
      sys.Memcpy(p, src, size);
    }

    /** `text` is the string at src, without its terminator. */
    method Strdup(src: nat, base: nat, ghost text: seq<Byte>) returns (p: nat)
      requires RawInv(Abs()) && RawOpOk(Abs(), DupString(src, text, base)) && RawArgs(|text| + 1, 1)
      modifies this, sys
      ensures (Abs(), p) == RawStep(old(Abs()), DupString(src, text, base))
      ensures RawInv(Abs())
    {
      TextEnds(sys.bytes, src, text, |text|);
      var len := sys.Strlen(src, |text|);
      TextEnds(sys.bytes, src, text, len);
      p := Memdup(src, len + 1, base);
    }

    // -------------------------------------------------------------- the allocator protocol

    /** The page decision for a block with its header. */
    method PlaceHeader(size: nat, base: nat)
      requires VCursorOk(Snapshot()) && size > 0 && HeaderAnswer(Snapshot(), size, base)
      requires current + abi.wordBytes + size < abi.Limit()
      modifies this`pages, this`current, this`sentinel, this`pageIndex, this`owned, sys
      ensures Snapshot() == HeaderPlace(old(Snapshot()), size, base)
    {
      var total := abi.wordBytes + size;
      var user := current + abi.wordBytes;
      var end := user + size;
      if end > sentinel || sentinel == 0 {
        NewPage(total + (abi.maxAlign - abi.wordBytes), base);
        current := current + (abi.maxAlign - abi.wordBytes);
      }
    }

    method AllocWithSizeHeader(size: nat, base: nat) returns (user: nat)
      requires VInv(Abs()) && VAllocOk(Abs(), size, base)
      requires current + abi.wordBytes + size < abi.Limit()
      modifies this, sys
      ensures (Abs(), user) == VAlloc(old(Abs()), size, base)
      ensures VInv(Abs())
    {
      ghost var s := Abs();
      PlaceFits(s.w, size, base);
      PlaceBounds(s.w, size, base);
      PlaceHeader(size, base);
      user := current + abi.wordBytes;
      PutHeader(user, user + size, size);
      assert Abs() == VAlloc(s, size, base).0;
      assert VInv(Abs()) by {
        VAllocInv(s, size, base);
      }
    }

    /** Store the size below the block and move the cursor to where the next header goes. */
    method PutHeader(user: nat, end: nat, size: nat)
      requires abi.Ok() && user == current + abi.wordBytes && end == user + size
      requires Mapped(sys.bytes, current, abi.wordBytes) && end + abi.maxAlign <= abi.Limit()
      modifies this`current, this`last, this`live, this`granted, sys
      ensures current == CursorAfter(abi, end) && last == old(current)
      ensures sys.bytes == Store(old(sys.bytes), old(current), Encode(size, abi.wordBytes))
      ensures live == old(live)[user := Block(size, abi.wordBytes, pageIndex)]
      ensures granted == old(granted) + Range(last, abi.wordBytes + size)
    {
      sys.StoreWord(user - abi.wordBytes, size, abi.wordBytes);
      current := AlignPointer(end, abi.maxAlign);
      current := current - abi.wordBytes;
      last := user - abi.wordBytes;
      live := live[user := Block(size, abi.wordBytes, pageIndex)];
      granted := granted + Range(last, abi.wordBytes + size);
    }

    /** Resize the last block where it is. */
    method ExtendInPlace(block: nat, total: nat)
      requires VInv(Abs()) && block in live && total > 0 && VExtends(Snapshot(), block, total)
      modifies this`current, this`live, this`granted, sys
      ensures block >= abi.wordBytes && Abs() == VResized(old(Abs()), block, total)
    {
      ExtendBounds(Abs(), block, total);
      assert Mapped(sys.bytes, block - abi.wordBytes, abi.wordBytes) by {
        ExtentMapped(Abs(), block);
      }
      current := AlignPointer(block + total, abi.maxAlign);
      current := current - abi.wordBytes;
      sys.StoreWord(block - abi.wordBytes, total, abi.wordBytes);
      live := live[block := live[block].(size := total)];
      granted := granted + Range(block, total);
    }

    /** Allocate anew, copy, abandon the old block. */
    method Move(block: nat, oldSize: nat, total: nat, base: nat) returns (p: nat)
      requires VInv(Abs()) && VAllocOk(Abs(), total, base)
      requires block in live
      requires var (t, q) := VAlloc(Abs(), total, base);
        var n := Min(oldSize, total);
        Mapped(t.w.mem, block, n) && Apart(q, n, block, n)
      requires current + abi.wordBytes + total < abi.Limit()
      modifies this, sys
      ensures var (t, q) := VAlloc(old(Abs()), total, base);
        p == q && Abs() == Retired(Poke(t, q, Load(t.w.mem, block, Min(oldSize, total))), block)
    {
      p := AllocWithSizeHeader(total, base);
      VBlockMapped(Abs(), p);
      sys.Memcpy(p, block, if oldSize < total then oldSize else total);
      live := live - {block};
    }

    /** For arbitrary sizes, provided that the copy on the moving path is a defined one. */
    method ReallocarrayV(block: nat, n: nat, size: nat, base: nat) returns (p: nat)
      requires VInv(Abs())
      requires VReallocOk(Abs(), block, n * size, base)
      requires current + abi.wordBytes + n * size < abi.Limit()
      modifies this, sys
      ensures (Abs(), p) == VRealloc(old(Abs()), block, n * size, base)
      ensures VInv(Abs())
      ensures old(HeadersTrue(Abs())) ==> HeadersTrue(Abs())
      ensures old(VSafe(Abs())) && SafeEnd(abi, p + n * size) ==> VSafe(Abs())
    {
      assert VReallocOk(Abs(), block, n * size, base);
      p := Resize(block, n * size, base);
    }

    /** The call after its two factors are multiplied. */
    method Resize(block: nat, total: nat, base: nat) returns (p: nat)
      requires VInv(Abs()) && VReallocOk(Abs(), block, total, base)
      requires current + abi.wordBytes + total < abi.Limit()
      modifies this, sys
      ensures (Abs(), p) == VRealloc(old(Abs()), block, total, base)
      ensures VInv(Abs())
      ensures old(HeadersTrue(Abs())) ==> HeadersTrue(Abs())
      ensures old(VSafe(Abs())) && SafeEnd(abi, p + total) ==> VSafe(Abs())
    {
      ghost var s := Abs();
      p := Regrow(block, total, base);
      ReallocKeepsInv(s, block, total, base);
    }

    /** Allocate, or resize the last block in place if there is room, or move. */
    method Regrow(block: nat, total: nat, base: nat) returns (p: nat)
      requires VInv(Abs()) && VReallocOk(Abs(), block, total, base)
      requires current + abi.wordBytes + total < abi.Limit()
      modifies this, sys
      ensures (Abs(), p) == VRealloc(old(Abs()), block, total, base)
    {
      if block == 0 {
        p := AllocWithSizeHeader(total, base);
        return;
      }
      ExtentMapped(Abs(), block);
      var oldSize := sys.LoadWord(block - abi.wordBytes, abi.wordBytes);
      var raw := block - abi.wordBytes;
      if raw == last {
        var end := block + total;
        if end <= sentinel {
          ExtendInPlace(block, total);
          return block;
        }
      }
      p := Move(block, oldSize, total, base);
    }

    method CallocV(n: nat, size: nat, base: nat) returns (p: nat)
      requires VInv(Abs()) && n * size > 0 && VAllocOk(Abs(), n * size, base)
      requires current + abi.wordBytes + n * size < abi.Limit()
      modifies this, sys
      ensures (Abs(), p) == VCalloc(old(Abs()), n * size, base)
      ensures VInv(Abs())
    {
      var total := n * size;
      p := AllocWithSizeHeader(total, base);
      VBlockMapped(Abs(), p);
      VFillInv(Abs(), p, Repeat(0, total));
      sys.Memset(p, 0, total);
    }

    method FreeV(block: nat)
      requires VInv(Abs()) && (block == 0 || block > abi.wordBytes)
      modifies this`current, this`last, this`live
      ensures Abs() == VFree(old(Abs()), block)
      ensures VInv(Abs())
    {
      ghost var s := Abs();
      VFreeInv(s, block);
      if block == 0 {
        return;
      }
      var raw := block - abi.wordBytes;
      if raw == last {
        current := raw;
        last := 0;
      }
      live := live - {block};
    }
  }

  lemma OpenedBelowLimit(w: World, size: nat, alignment: nat, base: nat)
    requires PagesOk(w) && PageOpen(w) && size > 0 && alignment > 0
    requires AllocAnswer(w, size, alignment, base) && Overruns(w, size, alignment)
    ensures ArenaModel.NewPage(w, size + alignment - 1, base).ar.current + (alignment - 1) < w.abi.Limit()
  {
    NewPageOpens(w, size + alignment - 1, base);
  }

  lemma ReallocKeepsInv(s: State, block: nat, total: nat, base: nat)
    requires VInv(s) && VReallocOk(s, block, total, base)
    ensures var (t, p) := VRealloc(s, block, total, base);
      && VInv(t) && (HeadersTrue(s) ==> HeadersTrue(t))
      && (VSafe(s) && SafeEnd(s.w.abi, p + total) ==> VSafe(t))
  {
    VReallocInv(s, block, total, base);
    if HeadersTrue(s) {
      ReallocKeepsHeaders(s, block, total, base);
    }
    if VSafe(s) && SafeEnd(s.w.abi, VRealloc(s, block, total, base).1 + total) {
      ReallocKeepsSafe(s, block, total, base);
    }
  }

  lemma ReallocKeepsHeaders(s: State, block: nat, total: nat, base: nat)
    requires VInv(s) && VReallocOk(s, block, total, base) && HeadersTrue(s)
    ensures HeadersTrue(VRealloc(s, block, total, base).0)
  {
    assert total * 1 == total;
    StepKeepsHeaders(s, Reallocarray(block, total, 1, base));
  }

  lemma ReallocKeepsSafe(s: State, block: nat, total: nat, base: nat)
    requires VSafe(s) && VReallocOk(s, block, total, base)
    requires SafeEnd(s.w.abi, VRealloc(s, block, total, base).1 + total)
    ensures VSafe(VRealloc(s, block, total, base).0)
  {
    assert total * 1 == total;
    StepSafe(s, Reallocarray(block, total, 1, base));
  }

  lemma ExtendBounds(s: State, block: nat, total: nat)
    requires VInv(s) && block in s.live && VExtends(s.w, block, total)
    ensures block > s.w.abi.wordBytes && block + total + s.w.abi.maxAlign <= s.w.abi.Limit()
  {
    VBlock(s, block);
  }

  /** The terminator of a string is its first zero byte. */
  lemma TextEnds(mem: Bytes, src: nat, text: seq<Byte>, n: nat)
    requires 0 !in text && n <= |text| && Load(mem, src, |text| + 1) == text + [0]
    ensures Peek(mem, src + n) == 0 <==> n == |text|
  {
    assert (text + [0])[n] == Peek(mem, src + n);
  }

  lemma OneMore(pages: seq<nat>, lo: nat, i: nat)
    requires lo <= i < |pages|
    ensures PageSet(pages[lo..i + 1]) == PageSet(pages[lo..i]) + {pages[i]}
  {
    assert pages[lo..i + 1] == pages[lo..i] + [pages[i]];
  }

  /** A page not yet given back is still owned and mapped. */
  lemma StillOwned(w: World, lo: nat, i: nat)
    requires PagesOk(w) && lo <= i < |w.ar.pages|
    ensures var p := w.ar.pages[i];
      var left := w.owned - PageSet(w.ar.pages[lo..i]);
      && p in left && left[p] == SizeIn(w.owned, p) > 0
      && Mapped(Dropped(w.mem, w.owned, w.ar.pages, lo, i), p, left[p])
  {
    assert PageOk(w, i);
    forall j: nat | lo <= j < i
      ensures w.ar.pages[j] != w.ar.pages[i]
      ensures Apart(w.ar.pages[i], w.PageBytes(i), w.ar.pages[j], SizeIn(w.owned, w.ar.pages[j]))
    {
      PagesDistinct(w, i, j);
    }
    forall a: nat | w.ar.pages[i] <= a < w.ar.pages[i] + w.PageBytes(i)
      ensures a in Dropped(w.mem, w.owned, w.ar.pages, lo, i)
    {
      DroppedAt(w.mem, w.owned, w.ar.pages, lo, i, a);
    }
  }

  /** Kept pages are still mapped when the others are gone. */
  lemma KeptStillMapped(w: World, keep: nat, mem: Bytes)
    requires PagesOk(w) && keep <= |w.ar.pages|
    requires mem == Dropped(w.mem, w.owned, w.ar.pages, keep, |w.ar.pages|)
    ensures forall i: nat {:trigger w.ar.pages[i]} :: i < keep ==> Mapped(mem, w.ar.pages[i], w.ar.pageSize)
  {
    forall i: nat | i < keep ensures Mapped(mem, w.ar.pages[i], w.ar.pageSize) {
      assert PageOk(w, i);
      KeptMapped(w, keep, i);
      ZeroedAt(mem, w.ar.pages, w.ar.pageSize, keep, 0);
    }
  }
}
