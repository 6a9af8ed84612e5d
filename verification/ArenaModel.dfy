/** The arena as a value: what each call of mulle-arena.h computes from the cursor fields, the
    page list and memory. The answers of the system allocator are the `base` parameters. */
module ArenaModel {
  import opened Words
  import opened Memory

  /** sizeof(size_t) and MULLE_ARENA_DEFAULT_ALIGNMENT of a platform. */
  datatype Abi = Abi(wordBytes: nat, maxAlign: nat) {
    ghost predicate Ok() {
      0 < wordBytes <= maxAlign <= Limit() && IsPowerOfTwo(wordBytes) && IsPowerOfTwo(maxAlign)
    }

    function Limit(): nat { Pow2(8 * wordBytes) }
  }

  /** The fields of struct mulle_arena; NULL is 0. */
  datatype Arena = Arena(pages: seq<nat>, current: nat, sentinel: nat, last: nat,
                         pageSize: nat, pageIndex: nat)

  /** The fields, the sizes of the arena's outstanding system pages by base address, and memory. */
  datatype World = World(abi: Abi, ar: Arena, owned: map<nat, nat>, mem: Bytes) {
    function PageBytes(i: nat): nat
      requires i < |ar.pages|
    {
      if ar.pages[i] in owned then owned[ar.pages[i]] else 0
    }
  }

  const DEFAULT_PAGE_SIZE: nat := 4096

  function InitArena(pageSize: nat): Arena {
    Arena([], 0, 0, 0, if pageSize == 0 then DEFAULT_PAGE_SIZE else pageSize, 0)
  }

  // ---------------------------------------------------------------- pages

  /** A kept page is recycled when the request fits the page size and one is left. */
  predicate Recycles(ar: Arena, minSize: nat) {
    minSize <= ar.pageSize && ar.pageIndex + 1 < |ar.pages|
  }

  /** What the system allocator promises about a fresh page: an aligned, unmapped range that stays
      clear of address zero and of the last addresses, so that rounding up its end does not wrap. */
  ghost predicate PageAnswer(w: World, minSize: nat, base: nat)
    requires w.abi.maxAlign > 0
  {
    var n := Max(minSize, w.ar.pageSize);
    base > 0 && Aligned(base, w.abi.maxAlign) && base + n + w.abi.maxAlign <= w.abi.Limit()
    && Unmapped(w.mem, base, n)
  }

  function NewPage(w: World, minSize: nat, base: nat): World {
    if Recycles(w.ar, minSize) then
      var page := w.ar.pages[w.ar.pageIndex + 1];
      w.(ar := w.ar.(pageIndex := w.ar.pageIndex + 1, current := page, sentinel := page + w.ar.pageSize))
    else
      var n := Max(minSize, w.ar.pageSize);
      World(w.abi,
            w.ar.(pages := w.ar.pages + [base], pageIndex := |w.ar.pages|,
                  current := base, sentinel := base + n),
            w.owned[base := n], AddPage(w.mem, base, n))
  }

  function PageSet(pages: seq<nat>): set<nat> {
    set p | p in pages
  }

  function SizeIn(owned: map<nat, nat>, p: nat): nat {
    if p in owned then owned[p] else 0
  }

  /** Memory after pages lo..hi are given back, in order. */
  function Dropped(mem: Bytes, owned: map<nat, nat>, pages: seq<nat>, lo: nat, hi: nat): Bytes
    requires hi <= |pages|
    decreases hi
  {
    if hi <= lo then mem
    else DropPage(Dropped(mem, owned, pages, lo, hi - 1), pages[hi - 1], SizeIn(owned, pages[hi - 1]))
  }

  /** Memory after the first k pages are cleared, `size` bytes each. */
  function Zeroed(mem: Bytes, pages: seq<nat>, size: nat, k: nat): Bytes
    requires k <= |pages|
  {
    if k == 0 then mem else Store(Zeroed(mem, pages, size, k - 1), pages[k - 1], Repeat(0, size))
  }

  function ResetKeep(w: World, count: nat): World {
    if w.ar.pages == [] then w else
      var n := |w.ar.pages|;
      var keep := Min(count, n);
      var first := w.ar.pages[0];
      World(w.abi,
            Arena(w.ar.pages[..keep], if keep > 0 then first else 0,
                  if keep > 0 then first + w.ar.pageSize else 0, 0, w.ar.pageSize, 0),
            w.owned - PageSet(w.ar.pages[keep..]),
            Zeroed(Dropped(w.mem, w.owned, w.ar.pages, keep, n), w.ar.pages, w.ar.pageSize, keep))
  }

  function KeepCount(n: nat, percent: nat): nat {
    (n * Min(percent, 100) + 99) / 100
  }

  // ---------------------------------------------------------------- raw allocation

  /** The bump at the cursor reaches beyond the page. */
  predicate Overruns(w: World, size: nat, alignment: nat)
    requires alignment > 0
  {
    AlignUp(w.ar.current, alignment) + size > w.ar.sentinel
  }

  ghost predicate AllocAnswer(w: World, size: nat, alignment: nat, base: nat)
    requires w.abi.maxAlign > 0 && alignment > 0
  {
    Overruns(w, size, alignment) && !Recycles(w.ar, size + alignment - 1)
    ==> PageAnswer(w, size + alignment - 1, base)
  }

  function Alloc(w: World, size: nat, alignment: nat, base: nat): (World, nat)
    requires alignment > 0
  {
    var v := if Overruns(w, size, alignment) then NewPage(w, size + alignment - 1, base) else w;
    var aligned := AlignUp(v.ar.current, alignment);
    (v.(ar := v.ar.(current := aligned + size, last := aligned)), aligned)
  }

  /** Is this block the last allocation, with room to be resized in place? */
  predicate ExtendsInPlace(ar: Arena, start: nat, bytes: nat) {
    start == ar.last && ar.last + bytes <= ar.sentinel
  }

  // ---------------------------------------------------------------- allocation with a size header

  predicate HeaderOverruns(w: World, size: nat) {
    w.ar.current + w.abi.wordBytes + size > w.ar.sentinel || w.ar.sentinel == 0
  }

  /** The world in which the header is placed: a page is opened when the cursor overruns. */
  function HeaderPlace(w: World, size: nat, base: nat): World
    requires w.abi.wordBytes <= w.abi.maxAlign
  {
    if HeaderOverruns(w, size) then
      var gap := w.abi.maxAlign - w.abi.wordBytes;
      var v := NewPage(w, w.abi.wordBytes + size + gap, base);
      v.(ar := v.ar.(current := v.ar.current + gap))
    else w
  }

  ghost predicate HeaderAnswer(w: World, size: nat, base: nat)
    requires w.abi.maxAlign > 0
  {
    HeaderOverruns(w, size) && !Recycles(w.ar, size + w.abi.maxAlign)
    ==> PageAnswer(w, size + w.abi.maxAlign, base)
  }

  /** Where the cursor goes after a block that ends at `end`. */
  function CursorAfter(abi: Abi, end: nat): int
    requires abi.maxAlign > 0
  {
    AlignUp(end, abi.maxAlign) - abi.wordBytes
  }
}
