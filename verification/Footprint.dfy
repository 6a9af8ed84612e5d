/** Which memory an arena holds: what a reset gives back, clears and leaves, and that over a run nothing leaks. */
module Footprint {
  import opened Words
  import opened Memory
  import opened ArenaModel
  import opened ArenaState
  import opened ArenaBlocks
  import opened RawRuns
  import opened RawTheorems
  import opened RawLaws
  import opened VtableRuns
  import opened VtableSteps
  import opened VtableTheorems
  import opened Neighbours
  import opened PageOrder
  import V = VtableLaws

  // ---------------------------------------------------------------- one reset

  /** The address lies in a page after the first `keep`. */
  ghost predicate GivenBack(w: World, keep: nat, a: nat) {
    exists i: nat :: keep <= i < |w.ar.pages| && Within(a, w.ar.pages[i], w.PageBytes(i))
  }

  /** The address lies in the first `pageSize` bytes of one of the first `keep` pages. */
  ghost predicate Cleared(w: World, keep: nat, a: nat) {
    exists i: nat :: i < keep && i < |w.ar.pages| && Within(a, w.ar.pages[i], w.ar.pageSize)
  }

  /** After a reset every byte of the pages given back is unmapped, and every other byte is mapped as
      before; the kept pages are zero up to the page size, and no other byte differs. */
  lemma ResetUnmaps(s: State, count: nat, a: nat)
    requires PagesOk(s.w)
    ensures var m := Reset(s, count).w.mem;
      && (a in m <==> a in s.w.mem && !GivenBack(s.w, count, a))
      && (Cleared(s.w, count, a) ==> a in m && m[a] == 0)
      && (a in m && !Cleared(s.w, count, a) ==> m[a] == s.w.mem[a])
  {
    var w := s.w;
    var n := |w.ar.pages|;
    var keep := Min(count, n);
    if n > 0 {
      DroppedAt(w.mem, w.owned, w.ar.pages, keep, n, a);
      ZeroedAt(Dropped(w.mem, w.owned, w.ar.pages, keep, n), w.ar.pages, w.ar.pageSize, keep, a);
      forall i: nat | i < n ensures w.PageBytes(i) == SizeIn(w.owned, w.ar.pages[i]) { }
      if Cleared(w, count, a) {
        var i: nat :| i < count && i < n && Within(a, w.ar.pages[i], w.ar.pageSize);
        assert PageOk(w, i);
        KeptMapped(w, count, i);
      }
    }
  }

  /** The fields after a reset: the kept pages in their order, the cursor at the start of the first of them, and no last
      block; an arena without pages stays as it is. */
  lemma ResetFields(s: State, count: nat)
    requires PagesOk(s.w) && PageOpen(s.w)
    ensures var t := Reset(s, count);
      && t.live == map[] && t.w.abi == s.w.abi && t.w.ar.pageSize == s.w.ar.pageSize
      && (s.w.ar.pages == [] ==> t.w == s.w)
      && t.w.ar.pages == s.w.ar.pages[..Min(count, |s.w.ar.pages|)]
      && t.w.ar.last == 0 && t.w.ar.pageIndex == 0
      && (t.w.ar.pages == [] && s.w.ar.pages != [] ==> t.w.ar.current == 0 && t.w.ar.sentinel == 0)
      && (t.w.ar.pages != [] ==>
            t.w.ar.current == s.w.ar.pages[0] && t.w.ar.sentinel == s.w.ar.pages[0] + s.w.ar.pageSize)
  {
  }

  // ---------------------------------------------------------------- no step leaks

  /** Every address mapped after a step lies in a page of the arena, or was mapped outside its pages before. */
  ghost predicate NoLeak(w: World, v: World) {
    forall a: nat {:trigger KeptOrOwned(w, v, a)} :: KeptOrOwned(w, v, a)
  }

  ghost predicate KeptOrOwned(w: World, v: World, a: nat) {
    a in v.mem ==> InPages(v, a) || (a in w.mem && !InPages(w, a))
  }

  lemma SameKeys(w: World, v: World)
    requires v.mem.Keys == w.mem.Keys && v.ar.pages == w.ar.pages && v.owned == w.owned
    ensures NoLeak(w, v)
  {
    forall a: nat ensures KeptOrOwned(w, v, a) {
      if InPages(w, a) {
        var i: nat :| i < |w.ar.pages| && Within(a, w.ar.pages[i], w.PageBytes(i));
        assert Within(a, v.ar.pages[i], v.PageBytes(i));
      }
    }
  }

  lemma PageAdded(w: World, v: World, base: nat, bytes: nat)
    requires PagesOk(w) && bytes > 0 && Unmapped(w.mem, base, bytes) && OpensPage(w, v, base, bytes)
    requires forall a: nat :: a in v.mem <==> a in w.mem || Within(a, base, bytes)
    ensures NoLeak(w, v)
  {
    forall a: nat ensures KeptOrOwned(w, v, a) {
      if Within(a, base, bytes) {
        assert Within(a, v.ar.pages[|w.ar.pages|], v.PageBytes(|w.ar.pages|));
      } else if InPages(w, a) {
        var i: nat :| i < |w.ar.pages| && Within(a, w.ar.pages[i], w.PageBytes(i));
        FreshApart(w, i, base, bytes);
        assert Within(a, v.ar.pages[i], v.PageBytes(i));
      }
    }
  }

  lemma ResetNoLeak(s: State, count: nat)
    requires PagesOk(s.w)
    ensures NoLeak(s.w, Reset(s, count).w)
  {
    var v := Reset(s, count).w;
    forall a: nat ensures KeptOrOwned(s.w, v, a) {
      ResetUnmaps(s, count, a);
      if a in v.mem && InPages(s.w, a) {
        var i: nat :| i < |s.w.ar.pages| && Within(a, s.w.ar.pages[i], s.w.PageBytes(i));
        assert i < count;
        KeptOwned(s.w, count, i);
        assert Within(a, v.ar.pages[i], v.PageBytes(i));
      }
    }
  }

  lemma AllocNoLeak(s: State, size: nat, alignment: nat, base: nat)
    requires RawInv(s) && AllocOk(s, size, alignment, base)
    ensures NoLeak(s.w, RawAlloc(s, size, alignment, base).0.w)
  {
    var t := RawAlloc(s, size, alignment, base).0;
    if HasRoom(s.w.ar, size, alignment) {
      AllocInPage(s, size, alignment, base);
      SameKeys(s.w, t.w);
    } else if KeptPageServes(s.w.ar, size, alignment) {
      AllocOnKeptPage(s, size, alignment, base);
      SameKeys(s.w, t.w);
    } else {
      AllocOnNewPage(s, size, alignment, base);
      RoomIsNoOverrun(s.w, size, alignment);
      PageAdded(s.w, t.w, base, Max(size + alignment - 1, s.w.ar.pageSize));
    }
  }

  lemma LikeNoLeak(w: World, u: World, v: World)
    requires NoLeak(w, u) && v.mem.Keys == u.mem.Keys && v.ar.pages == u.ar.pages && v.owned == u.owned
    ensures NoLeak(w, v)
  {
    forall a: nat ensures KeptOrOwned(w, v, a) {
      assert KeptOrOwned(w, u, a);
      if InPages(u, a) {
        var i: nat :| i < |u.ar.pages| && Within(a, u.ar.pages[i], u.PageBytes(i));
        assert Within(a, v.ar.pages[i], v.PageBytes(i));
      }
    }
  }

  lemma AskNoLeak(s: State, op: RawOp, size: nat, alignment: nat)
    requires RawInv(s) && RawOpOk(s, op) && Asks(s, op, size, alignment)
    ensures NoLeak(s.w, RawStep(s, op).0.w)
  {
    AnswersLikeAlloc(s, op, size, alignment);
    AllocNoLeak(s, size, alignment, op.base);
    LikeNoLeak(s.w, RawAlloc(s, size, alignment, op.base).0.w, RawStep(s, op).0.w);
  }

  /** No raw call, client store or reset leaks. */
  lemma RawStepNoLeak(s: State, op: RawOp)
    requires RawInv(s) && RawOpOk(s, op) && !op.Elsewhere?
    ensures NoLeak(s.w, RawStep(s, op).0.w)
  {
    match op
    case Get(n, a, _) => AskNoLeak(s, op, n, a);
    case GetZeroed(n, a, _) => AskNoLeak(s, op, n, a);
    case Dup(_, data, _) => AskNoLeak(s, op, |data|, 1);
    case DupString(_, text, _) => AskNoLeak(s, op, |text| + 1, 1);
    case Resize(block, oldSize, n, a, base) =>
      if block == 0 || block != s.w.ar.last || block + n > s.w.ar.sentinel {
        AskNoLeak(s, op, n, a);
      } else {
        ReallocInPlace(s, block, oldSize, n, a, base);
        SameKeys(s.w, RawStep(s, op).0.w);
      }
    case Write(_, _, _) => SameKeys(s.w, RawStep(s, op).0.w);
    case Rewind(count) => ResetNoLeak(s, count);
    case RewindPercent(percent) => ResetNoLeak(s, KeepCount(|s.w.ar.pages|, percent));
  }

  lemma VAllocNoLeak(s: State, size: nat, base: nat)
    requires VInv(s) && VAllocOk(s, size, base)
    ensures NoLeak(s.w, VAlloc(s, size, base).0.w)
  {
    var t := VAlloc(s, size, base).0;
    if V.HasRoom(s.w, size) {
      V.AllocInPage(s, size, base);
      SameKeys(s.w, t.w);
    } else if V.KeptPageServes(s.w, size) {
      V.AllocOnKeptPage(s, size, base);
      SameKeys(s.w, t.w);
    } else {
      V.AllocOnNewPage(s, size, base);
      V.RoomIsNoOverrun(s.w, size);
      PageAdded(s.w, t.w, base, Max(size + s.w.abi.maxAlign, s.w.ar.pageSize));
    }
  }

  lemma VAskNoLeak(s: State, op: VOp, total: nat)
    requires VInv(s) && VOpOk(s, op) && (op.Calloc? || op.Reallocarray?) && total == op.n * op.size
    ensures NoLeak(s.w, VStep(s, op).0.w)
  {
    if op.Reallocarray? && op.block != 0 && V.StaysPut(s.w, op.block, total) {
      V.ReallocInPlace(s, op.block, total, op.base);
      SameKeys(s.w, VStep(s, op).0.w);
    } else {
      V.AnswersLikeMalloc(s, op);
      VAllocNoLeak(s, total, op.base);
      LikeNoLeak(s.w, VAlloc(s, total, op.base).0.w, VStep(s, op).0.w);
    }
  }

  /** No protocol call, client store or reset leaks, for arbitrary sizes. */
  lemma VStepNoLeak(s: State, op: VOp)
    requires VInv(s) && VOpOk(s, op) && !op.Elsewhere?
    ensures NoLeak(s.w, VStep(s, op).0.w)
  {
    match op
    case Calloc(n, size, _) => VAskNoLeak(s, op, n * size);
    case Reallocarray(_, n, size, _) => VAskNoLeak(s, op, n * size);
    case Free(block) =>
      V.FreeUndoes(s, block);
      SameKeys(s.w, VStep(s, op).0.w);
    case Write(_, _, _) => SameKeys(s.w, VStep(s, op).0.w);
    case Rewind(count) => ResetNoLeak(s, count);
    case RewindPercent(percent) => ResetNoLeak(s, KeepCount(|s.w.ar.pages|, percent));
  }

  // ---------------------------------------------------------------- runs

  /** A mapped address is foreign, with its byte untouched, or lies in an outstanding page, never both. */
  ghost predicate AccountedAt(w: World, foreign: Bytes, a: nat) {
    && (a in w.mem <==> a in foreign || InPages(w, a))
    && (a in foreign ==> !InPages(w, a) && Peek(w.mem, a) == foreign[a])
  }

  ghost predicate Accounted(w: World, foreign: Bytes) {
    forall a: nat {:trigger AccountedAt(w, foreign, a)} :: AccountedAt(w, foreign, a)
  }

  lemma AccountedStep(w: World, v: World, foreign: Bytes)
    requires Accounted(w, foreign) && Confined(w, v) && NoLeak(w, v) && PagesOk(v)
    ensures Accounted(v, foreign)
  {
    forall a: nat ensures AccountedAt(v, foreign, a) {
      assert AccountedAt(w, foreign, a) && ByteSpared(w, v, a) && KeptOrOwned(w, v, a);
      if InPages(v, a) {
        var i: nat :| i < |v.ar.pages| && Within(a, v.ar.pages[i], v.PageBytes(i));
        assert PageOk(v, i) && PageFrom(w, v, i);
        if a in w.mem {
          assert Within(a, w.ar.pages[i], w.PageBytes(i));
        }
      }
    }
  }

  /** As long as nobody else touches memory, the mapped addresses are at every point of a raw run
      exactly those mapped when the arena was initialised and those of the outstanding pages; and what
      was mapped holds what it held. */
  lemma {:induction false} RawMappedExactly(states: seq<State>, ops: seq<RawOp>, ps: seq<nat>, i: nat)
    requires IsRun(states, ops, ps) && StartsFresh(states[0]) && i <= |ops|
    requires forall k: nat :: k < i ==> !ops[k].Elsewhere?
    ensures RawInv(states[i]) && Accounted(states[i].w, states[0].w.mem)
  {
    if i == 0 {
      var abi: Abi, pageSize: nat, foreign: Bytes :| abi.Ok() && states[0] == Fresh(abi, pageSize, foreign);
      FreshInv(abi, pageSize, foreign);
    } else {
      RawMappedExactly(states, ops, ps, i - 1);
      assert StepAt(states, ops, ps, i - 1);
      RawStepInv(states[i - 1], ops[i - 1]);
      RawStepConfined(states[i - 1], ops[i - 1]);
      RawStepNoLeak(states[i - 1], ops[i - 1]);
      AccountedStep(states[i - 1].w, states[i].w, states[0].w.mem);
    }
  }

  /** The same for protocol runs, for arbitrary sizes. */
  lemma {:induction false} VMappedExactly(states: seq<State>, ops: seq<VOp>, ps: seq<nat>, i: nat)
    requires IsVRun(states, ops, ps) && StartsFresh(states[0]) && i <= |ops|
    requires forall k: nat :: k < i ==> !ops[k].Elsewhere?
    ensures VInv(states[i]) && Accounted(states[i].w, states[0].w.mem)
  {
    if i == 0 {
      FreshSafe(states[0]);
    } else {
      VMappedExactly(states, ops, ps, i - 1);
      assert VCallAt(states, ops, ps, i - 1) && CopyAt(states, ops, i - 1);
      VStepInv(states[i - 1], ops[i - 1]);
      VStepConfined(states[i - 1], ops[i - 1]);
      VStepNoLeak(states[i - 1], ops[i - 1]);
      AccountedStep(states[i - 1].w, states[i].w, states[0].w.mem);
    }
  }
}
