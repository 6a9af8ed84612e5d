/** The order in which pages are used and opened, for raw calls and for the protocol alike. */
module PageOrder {
  import opened Words
  import opened Memory
  import opened ArenaModel

  /** The new system page: at the end of the list, as long as the page size or the request, mapped and zero. */
  ghost predicate OpensPage(w: World, v: World, base: nat, bytes: nat) {
    && v.abi == w.abi && v.ar.pageSize == w.ar.pageSize
    && v.ar.pages == w.ar.pages + [base] && v.ar.pageIndex == |w.ar.pages| && v.ar.sentinel == base + bytes
    && v.owned == w.owned[base := bytes]
  }

  /** Memory is as before, and the page is mapped and zero. */
  ghost predicate GainsPage(was: Bytes, mem: Bytes, base: nat, bytes: nat) {
    && (forall a: nat :: a in mem <==> a in was || Within(a, base, bytes))
    && (forall a: nat :: Peek(mem, a) == Peek(was, a))
  }

  lemma PageGained(mem: Bytes, base: nat, bytes: nat)
    requires Unmapped(mem, base, bytes)
    ensures GainsPage(mem, AddPage(mem, base, bytes), base, bytes)
  {
  }

  /** A step that stays on its page, or goes to the next one on the list, or, if there is none, appends one. */
  ghost predicate NextPage(w: World, v: World) {
    && v.ar.pageSize == w.ar.pageSize
    && (|| (v.ar.pages == w.ar.pages && v.owned == w.owned
            && (v.ar.pageIndex == w.ar.pageIndex || v.ar.pageIndex == w.ar.pageIndex + 1 < |w.ar.pages|))
        || (w.ar.pageIndex + 1 >= |w.ar.pages| && w.ar.pages <= v.ar.pages
            && |v.ar.pages| == |w.ar.pages| + 1 && v.ar.pageIndex == |w.ar.pages|))
  }

  /** From `first` to `w` pages were only appended, and none before the index had passed all that there were. */
  ghost predicate InOrder(first: World, w: World) {
    && w.ar.pageSize == first.ar.pageSize && first.ar.pages <= w.ar.pages
    && (w.ar.pages != [] ==> |w.ar.pages| == Max(|first.ar.pages|, w.ar.pageIndex + 1))
    && (w.ar.pageIndex < |first.ar.pages| ==> w.ar.pages == first.ar.pages && w.owned == first.owned)
  }

  lemma OrderStep(first: World, w: World, v: World)
    requires InOrder(first, w) && NextPage(w, v)
    ensures InOrder(first, v)
  {
  }
}
