/** The arena together with its client's bookkeeping: which blocks are live, and which addresses
    have been handed out or used as headers since the last reset. */
module ArenaState {
  import opened Words
  import opened Memory
  import opened ArenaModel

  datatype Block = Block(size: nat, alignment: nat, page: nat)

  datatype State = State(w: World, live: map<nat, Block>, granted: set<nat>)

  function Contents(s: State, p: nat): seq<Byte>
    requires p in s.live
  {
    Load(s.w.mem, p, s.live[p].size)
  }

  type Heap = map<nat, seq<Byte>>

  /** What clients see: the contents of every live block. */
  function HeapOf(s: State): Heap {
    map p | p in s.live :: Contents(s, p)
  }

  ghost predicate KeptBlock(s: State, t: State, q: nat)
    requires q in s.live
  {
    q in t.live && t.live[q] == s.live[q] && Contents(t, q) == Contents(s, q)
  }

  /** Every live block of `s` outside `gone` is live in `t` with the same extent and contents. */
  ghost predicate Keeps(s: State, t: State, gone: set<nat>) {
    forall q {:trigger KeptBlock(s, t, q)} :: q in s.live && q !in gone ==> KeptBlock(s, t, q)
  }

  // ---------------------------------------------------------------- the page list

  ghost predicate PageOk(w: World, i: nat)
    requires i < |w.ar.pages| && w.abi.Ok()
  {
    var p := w.ar.pages[i];
    && p in w.owned && p > 0 && Aligned(p, w.abi.maxAlign)
    && 0 < w.ar.pageSize <= w.owned[p] && p + w.owned[p] + w.abi.maxAlign <= w.abi.Limit()
    && Mapped(w.mem, p, w.owned[p])
  }

  ghost predicate PagePair(w: World, i: nat, j: nat)
    requires i < |w.ar.pages| && j < |w.ar.pages|
  {
    Apart(w.ar.pages[i], w.PageBytes(i), w.ar.pages[j], w.PageBytes(j))
  }

  ghost predicate Listed(w: World, b: nat) {
    b in w.ar.pages
  }

  /** The outstanding system pages are exactly the entries of the page list: mapped, aligned,
      disjoint (so listed once), and none shorter than the page size. */
  ghost predicate PagesOk(w: World) {
    && w.abi.Ok()
    && w.ar.pageSize > 0
    && (forall i: nat {:trigger PageOk(w, i)} :: i < |w.ar.pages| ==> PageOk(w, i))
    && (forall i: nat, j: nat {:trigger PagePair(w, i, j)} :: i < j < |w.ar.pages| ==> PagePair(w, i, j))
    && (forall b {:trigger Listed(w, b)} :: b in w.owned ==> Listed(w, b))
  }

  /** The address lies in a page of the arena. */
  ghost predicate InPages(w: World, a: nat) {
    exists i: nat :: i < |w.ar.pages| && Within(a, w.ar.pages[i], w.PageBytes(i))
  }

  /** The page list does not depend on the cursor, nor on what memory holds. */
  lemma PagesOkFrame(w: World, v: World)
    requires PagesOk(w)
    requires v.abi == w.abi && v.owned == w.owned && v.mem.Keys == w.mem.Keys
    requires v.ar.pages == w.ar.pages && v.ar.pageSize == w.ar.pageSize
    ensures PagesOk(v)
  {
    forall i: nat | i < |v.ar.pages| ensures PageOk(v, i) {
      assert PageOk(w, i);
    }
    forall i: nat, j: nat | i < j < |v.ar.pages|
      ensures PagePair(v, i, j)
    {
      assert PagePair(w, i, j);
    }
    forall b | b in v.owned ensures Listed(v, b) {
      assert Listed(w, b);
    }
  }

  lemma PagesDistinct(w: World, i: nat, j: nat)
    requires PagesOk(w) && i < |w.ar.pages| && j < |w.ar.pages| && i != j
    ensures Apart(w.ar.pages[i], w.PageBytes(i), w.ar.pages[j], w.PageBytes(j))
    ensures w.ar.pages[i] != w.ar.pages[j]
  {
    assert PageOk(w, i) && PageOk(w, j);
    assert i < j ==> PagePair(w, i, j);
    assert j < i ==> PagePair(w, j, i);
  }

  /** The outstanding pages are exactly the listed ones, none listed twice. */
  lemma PagesAccounted(w: World)
    requires PagesOk(w)
    ensures w.owned.Keys == PageSet(w.ar.pages)
    ensures forall i: nat, j: nat :: i < j < |w.ar.pages| ==> w.ar.pages[i] != w.ar.pages[j]
  {
    forall b ensures b in w.owned <==> b in PageSet(w.ar.pages) {
      if b in w.owned {
        assert Listed(w, b);
      }
      if b in w.ar.pages {
        var i: nat :| i < |w.ar.pages| && w.ar.pages[i] == b;
        assert PageOk(w, i);
      }
    }
    forall i: nat, j: nat | i < j < |w.ar.pages| ensures w.ar.pages[i] != w.ar.pages[j] {
      PagesDistinct(w, i, j);
    }
  }

  /** The current page lies at the cursor's index, and the sentinel is its end, or its end as
      clipped to the page size when the page was kept by a reset. */
  ghost predicate PageOpen(w: World) {
    if w.ar.pages == [] then
      w.ar.current == 0 && w.ar.sentinel == 0 && w.ar.last == 0 && w.ar.pageIndex == 0
    else
      && w.ar.pageIndex < |w.ar.pages|
      && var page := w.ar.pages[w.ar.pageIndex];
         page + w.ar.pageSize <= w.ar.sentinel <= page + w.PageBytes(w.ar.pageIndex)
  }

  /** Raw calls keep the cursor between the page start and the sentinel. */
  ghost predicate CursorOk(w: World) {
    && PageOpen(w)
    && (w.ar.pages != [] ==> w.ar.pages[w.ar.pageIndex] <= w.ar.current <= w.ar.sentinel)
  }

  // ---------------------------------------------------------------- live blocks

  ghost predicate InPage(w: World, p: nat, b: Block) {
    && b.page <= w.ar.pageIndex && b.page < |w.ar.pages|
    && w.ar.pages[b.page] <= p && p + b.size <= w.ar.pages[b.page] + w.PageBytes(b.page)
  }

  ghost predicate BlockOk(s: State, p: nat)
    requires p in s.live
  {
    var b := s.live[p];
    && p > 0 && b.size > 0 && b.alignment > 0 && Aligned(p, b.alignment)
    && InPage(s.w, p, b)
    && Range(p, b.size) <= s.granted
  }

  ghost predicate BlocksOk(s: State) {
    forall p {:trigger BlockOk(s, p)} :: p in s.live ==> BlockOk(s, p)
  }

  ghost predicate PairApart(s: State, p: nat, q: nat)
    requires p in s.live && q in s.live
  {
    Apart(p, s.live[p].size, q, s.live[q].size)
  }

  ghost predicate BlocksApart(s: State) {
    forall p, q {:trigger PairApart(s, p, q)} :: p in s.live && q in s.live && p != q ==> PairApart(s, p, q)
  }

  lemma FewerApart(s: State, t: State)
    requires BlocksApart(s)
    requires forall p :: p in t.live ==> p in s.live && t.live[p] == s.live[p]
    ensures BlocksApart(t)
  {
    forall q, r | q in t.live && r in t.live && q != r ensures PairApart(t, q, r) {
      assert PairApart(s, q, r);
    }
  }

  // ---------------------------------------------------------------- never-granted memory

  /** Memory that was never granted reads zero: on the current page up to the sentinel, and on
      every page not yet visited up to the page size. */
  ghost predicate FreshIsZero(s: State) {
    && (s.w.ar.pages != [] && s.w.ar.pageIndex < |s.w.ar.pages| ==>
          forall a: nat :: s.w.ar.pages[s.w.ar.pageIndex] <= a < s.w.ar.sentinel && a !in s.granted
            ==> Peek(s.w.mem, a) == 0)
    && (forall j: nat, a: nat :: s.w.ar.pageIndex < j < |s.w.ar.pages|
          && Within(a, s.w.ar.pages[j], s.w.ar.pageSize) && a !in s.granted
          ==> Peek(s.w.mem, a) == 0)
  }

  // ---------------------------------------------------------------- opening a page

  /** Opening a page keeps the page list sound. */
  lemma NewPagePages(w: World, minSize: nat, base: nat)
    requires PagesOk(w)
    requires !Recycles(w.ar, minSize) ==> PageAnswer(w, minSize, base)
    ensures PagesOk(NewPage(w, minSize, base))
  {
    if Recycles(w.ar, minSize) {
      PagesOkFrame(w, NewPage(w, minSize, base));
    } else {
      FreshPageOk(w, minSize, base);
    }
  }

  /** One new page always suffices: the new current page comes later than every page used so far,
      and it holds `minSize` bytes from a start that is aligned for any fundamental type. */
  lemma NewPageOpens(w: World, minSize: nat, base: nat)
    requires PagesOk(w) && PageOpen(w)
    requires !Recycles(w.ar, minSize) ==> PageAnswer(w, minSize, base)
    ensures var v := NewPage(w, minSize, base);
      && PageOpen(v.(ar := v.ar.(last := 0)))
      && v.ar.pages != [] && v.ar.current == v.ar.pages[v.ar.pageIndex]
      && v.ar.current > 0 && Aligned(v.ar.current, w.abi.maxAlign)
      && v.ar.current + minSize <= v.ar.sentinel && v.ar.sentinel + w.abi.maxAlign <= w.abi.Limit()
      && (w.ar.pages != [] ==> v.ar.pageIndex > w.ar.pageIndex)
      && v.ar.pages[..|w.ar.pages|] == w.ar.pages
      && v.ar.last == w.ar.last && v.ar.pageSize == w.ar.pageSize && v.abi == w.abi
  {
    if Recycles(w.ar, minSize) {
      assert PageOk(w, w.ar.pageIndex + 1);
    }
  }

  /** A page answered by the system lies apart from all pages listed so far. */
  lemma FreshApart(w: World, i: nat, base: nat, n: nat)
    requires PagesOk(w) && i < |w.ar.pages| && n > 0 && Unmapped(w.mem, base, n)
    ensures Apart(w.ar.pages[i], w.PageBytes(i), base, n)
    ensures w.ar.pages[i] != base
  {
    assert PageOk(w, i);
    var p := w.ar.pages[i];
    assert p in w.mem;
    assert p <= base < p + w.PageBytes(i) ==> base in w.mem;
  }

  lemma FreshPageOk(w: World, minSize: nat, base: nat)
    requires PagesOk(w) && !Recycles(w.ar, minSize) && PageAnswer(w, minSize, base)
    ensures PagesOk(NewPage(w, minSize, base))
    ensures forall i: nat :: i < |w.ar.pages| ==>
      NewPage(w, minSize, base).PageBytes(i) == w.PageBytes(i)
  {
    var v := NewPage(w, minSize, base);
    var k := |w.ar.pages|;
    forall i: nat | i < k ensures PageOk(v, i) && v.PageBytes(i) == w.PageBytes(i) && PagePair(v, i, k) {
      assert PageOk(w, i);
      FreshApart(w, i, base, Max(minSize, w.ar.pageSize));
    }
    assert PageOk(v, k);
    forall i: nat, j: nat | i < j < |v.ar.pages| ensures PagePair(v, i, j) {
      if j < k {
        assert PagePair(w, i, j);
      }
    }
    forall b | b in v.owned ensures Listed(v, b) {
      assert b == v.ar.pages[k] || Listed(w, b);
    }
  }

  /** Opening a page changes no mapped byte, and no page's size. */
  lemma NewPageKeeps(w: World, minSize: nat, base: nat)
    requires PagesOk(w)
    requires !Recycles(w.ar, minSize) ==> PageAnswer(w, minSize, base)
    ensures var v := NewPage(w, minSize, base);
      && w.mem.Keys <= v.mem.Keys
      && (forall a :: a in w.mem ==> Peek(v.mem, a) == Peek(w.mem, a))
      && (forall i: nat :: i < |w.ar.pages| ==> v.PageBytes(i) == w.PageBytes(i))
  {
    if !Recycles(w.ar, minSize) {
      FreshPageOk(w, minSize, base);
    }
  }

  /** The bytes of a live block are mapped. */
  lemma BlockMapped(s: State, p: nat)
    requires PagesOk(s.w) && BlocksOk(s) && p in s.live
    ensures Mapped(s.w.mem, p, s.live[p].size)
  {
    assert BlockOk(s, p);
    assert PageOk(s.w, s.live[p].page);
  }

  /** Blocks on different pages lie apart. */
  lemma PagesSeparate(w: World, p: nat, b: Block, q: nat, c: Block)
    requires PagesOk(w) && InPage(w, p, b) && InPage(w, q, c) && b.page != c.page
    ensures Apart(p, b.size, q, c.size)
  {
    PagesDistinct(w, b.page, c.page);
  }

  /** Opening a page keeps never-granted memory at zero: a recycled page was not visited since it
      was cleared, a fresh one comes zeroed. */
  lemma NewPageIsZero(s: State, minSize: nat, base: nat)
    requires PagesOk(s.w) && PageOpen(s.w) && FreshIsZero(s)
    requires !Recycles(s.w.ar, minSize) ==> PageAnswer(s.w, minSize, base)
    ensures FreshIsZero(s.(w := NewPage(s.w, minSize, base)))
  {
    var v := NewPage(s.w, minSize, base);
    if Recycles(s.w.ar, minSize) {
      var j := s.w.ar.pageIndex + 1;
      forall a: nat | v.ar.pages[j] <= a < v.ar.sentinel && a !in s.granted
        ensures Peek(v.mem, a) == 0
      {
        assert Within(a, s.w.ar.pages[j], s.w.ar.pageSize);
      }
    } else {
      forall a: nat | base <= a < v.ar.sentinel ensures Peek(v.mem, a) == 0 {
        assert Within(a, base, Max(minSize, s.w.ar.pageSize));
      }
    }
  }

  /** Storing into granted memory keeps never-granted memory at zero. */
  lemma PokeIsZero(s: State, p: nat, data: seq<Byte>)
    requires FreshIsZero(s) && Range(p, |data|) <= s.granted
    ensures FreshIsZero(s.(w := s.w.(mem := Store(s.w.mem, p, data))))
  {
    forall a: nat | a !in s.granted
      ensures Peek(Store(s.w.mem, p, data), a) == Peek(s.w.mem, a)
    {
      assert a in Range(p, |data|) <==> Within(a, p, |data|);
    }
  }

  // ---------------------------------------------------------------- reset

  /** Giving pages back unmaps exactly their bytes. */
  lemma {:induction false} DroppedAt(mem: Bytes, owned: map<nat, nat>, pages: seq<nat>, lo: nat, hi: nat, a: nat)
    requires hi <= |pages|
    ensures var m := Dropped(mem, owned, pages, lo, hi);
      && (a in m <==> a in mem && forall i: nat :: lo <= i < hi ==> !Within(a, pages[i], SizeIn(owned, pages[i])))
      && (a in m ==> m[a] == mem[a])
    decreases hi
  {
    if hi > lo {
      DroppedAt(mem, owned, pages, lo, hi - 1, a);
    }
  }

  /** With all pages given back, exactly their bytes are unmapped, and no other byte differs. */
  lemma AllDropped(w: World, a: nat)
    ensures var m := Dropped(w.mem, w.owned, w.ar.pages, 0, |w.ar.pages|);
      && (a in m <==> a in w.mem && !InPages(w, a))
      && (a in m ==> m[a] == w.mem[a])
  {
    DroppedAt(w.mem, w.owned, w.ar.pages, 0, |w.ar.pages|, a);
    assert forall i: nat :: i < |w.ar.pages| ==> w.PageBytes(i) == SizeIn(w.owned, w.ar.pages[i]);
  }

  /** Clearing pages zeroes exactly their first `size` bytes. */
  lemma {:induction false} ZeroedAt(mem: Bytes, pages: seq<nat>, size: nat, k: nat, a: nat)
    requires k <= |pages|
    ensures var m := Zeroed(mem, pages, size, k);
      && m.Keys == mem.Keys
      && Peek(m, a) == if exists i: nat :: i < k && Within(a, pages[i], size) then 0 else Peek(mem, a)
  {
    if k > 0 {
      ZeroedAt(mem, pages, size, k - 1, a);
    }
  }

  /** A kept page stays mapped through a reset. */
  lemma KeptMapped(w: World, count: nat, i: nat)
    requires PagesOk(w) && i < |w.ar.pages| && i < count
    ensures Mapped(ResetKeep(w, count).mem, w.ar.pages[i], w.PageBytes(i))
  {
    var n := |w.ar.pages|;
    var keep := Min(count, n);
    var m := Dropped(w.mem, w.owned, w.ar.pages, keep, n);
    assert PageOk(w, i);
    forall a: nat | w.ar.pages[i] <= a < w.ar.pages[i] + w.PageBytes(i)
      ensures a in ResetKeep(w, count).mem
    {
      forall j: nat | keep <= j < n ensures !Within(a, w.ar.pages[j], SizeIn(w.owned, w.ar.pages[j])) {
        PagesDistinct(w, i, j);
        assert w.PageBytes(j) == SizeIn(w.owned, w.ar.pages[j]);
      }
      DroppedAt(w.mem, w.owned, w.ar.pages, keep, n, a);
      ZeroedAt(m, w.ar.pages, w.ar.pageSize, keep, a);
    }
  }

  lemma KeptOwned(w: World, count: nat, i: nat)
    requires PagesOk(w) && i < |w.ar.pages| && i < count
    ensures w.ar.pages[i] in ResetKeep(w, count).owned
    ensures i < |ResetKeep(w, count).ar.pages| && ResetKeep(w, count).ar.pages[i] == w.ar.pages[i]
    ensures ResetKeep(w, count).PageBytes(i) == w.PageBytes(i)
  {
    assert PageOk(w, i);
    var keep := Min(count, |w.ar.pages|);
    forall j: nat | keep <= j < |w.ar.pages| ensures w.ar.pages[j] != w.ar.pages[i] {
      PagesDistinct(w, i, j);
    }
    assert w.ar.pages[i] !in PageSet(w.ar.pages[keep..]);
  }

  /** Page conservation through a reset: exactly the pages after the first min(count, n) are given
      back, the others stay listed in order with their sizes, and the list again accounts for
      every outstanding page. The cursor is at the start of the first kept page. */
  lemma ResetPages(w: World, count: nat)
    requires PagesOk(w) && PageOpen(w)
    ensures var v := ResetKeep(w, count);
      && PagesOk(v) && CursorOk(v) && v.ar.last == 0
      && v.ar.pages == w.ar.pages[..Min(count, |w.ar.pages|)]
      && v.owned.Keys == PageSet(w.ar.pages[..Min(count, |w.ar.pages|)])
      && (forall b :: b in v.owned ==> v.owned[b] == w.owned[b])
  {
    var v := ResetKeep(w, count);
    var keep := Min(count, |w.ar.pages|);
    forall i: nat | i < |v.ar.pages| ensures PageOk(v, i) && v.PageBytes(i) == w.PageBytes(i) {
      assert PageOk(w, i);
      KeptMapped(w, count, i);
      KeptOwned(w, count, i);
    }
    forall i: nat, j: nat | i < j < |v.ar.pages|
      ensures PagePair(v, i, j)
    {
      assert PagePair(w, i, j);
    }
    forall b | b in v.owned ensures Listed(v, b) {
      assert Listed(w, b);
      ListedBefore(w.ar.pages, keep, b);
    }
    forall b | b in v.ar.pages ensures b in v.owned {
      var i: nat :| i < |v.ar.pages| && v.ar.pages[i] == b;
      assert PageOk(v, i);
    }
    assert v.owned.Keys == PageSet(v.ar.pages);
  }

  lemma ListedBefore(pages: seq<nat>, keep: nat, b: nat)
    requires keep <= |pages| && b in pages && b !in pages[keep..]
    ensures b in pages[..keep]
  {
    assert pages == pages[..keep] + pages[keep..];
  }

  /** After a reset every usable byte of every kept page reads zero. */
  lemma ResetIsZero(w: World, count: nat)
    requires PagesOk(w)
    ensures FreshIsZero(State(ResetKeep(w, count), map[], {}))
  {
    if w.ar.pages != [] {
      var v := ResetKeep(w, count);
      var n := |w.ar.pages|;
      var keep := Min(count, n);
      forall j: nat, a: nat | j < keep && Within(a, w.ar.pages[j], w.ar.pageSize)
        ensures Peek(v.mem, a) == 0
      {
        ZeroedAt(Dropped(w.mem, w.owned, w.ar.pages, keep, n), w.ar.pages, w.ar.pageSize, keep, a);
      }
      if keep > 0 {
        forall a: nat | v.ar.pages[0] <= a < v.ar.sentinel ensures Peek(v.mem, a) == 0 {
          assert Within(a, w.ar.pages[0], w.ar.pageSize);
        }
      }
    }
  }

  /** The percentage form keeps the ceiling of its share, never more than there are. */
  lemma KeepCountIsCeiling(n: nat, percent: nat)
    ensures KeepCount(n, percent) <= n
    ensures 100 * KeepCount(n, percent) >= n * Min(percent, 100)
    ensures KeepCount(n, percent) > 0 ==> 100 * (KeepCount(n, percent) - 1) < n * Min(percent, 100)
    ensures percent >= 100 ==> KeepCount(n, percent) == n
  {
    ScaleMonotone(Min(percent, 100), 100, n);
  }
}
