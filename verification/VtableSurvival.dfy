/** What goes wrong at an end that is not safe, exactly: from any state, for every size, for every byte of
    the block below a new one. */
module VtableSurvival {
  import opened Words
  import opened Memory
  import opened ArenaModel
  import opened ArenaState
  import opened ArenaBlocks
  import opened VtableRuns
  import opened VtableSteps
  import opened VtableHeaders

  function Other(b: Byte): (r: Byte)
    ensures r != b
  {
    if b == 0 then 1 else 0
  }

  /** The bytes below the cursor are the intact ones; the next header covers all others. */
  lemma AtCursor(s: State, p: nat, k: nat, size: nat)
    requires VInv(s) && p in s.live && k < s.live[p].size && Follows(s, size, p)
    ensures k < Intact(s, p) <==> p + k < s.w.ar.current
    ensures p + k < s.w.ar.current + s.w.abi.wordBytes
    ensures p + k in s.w.mem
  {
    IntactFits(s, p);
    ExtentMapped(s, p);
  }

  // ---------------------------------------------------------------- the allocation overwrites the tail

  /** The client stores `v` into byte k of a block; does it read `v` after an allocation? */
  ghost predicate ByteKept(s: State, p: nat, k: nat, v: Byte, size: nat, base: nat)
    requires s.w.abi.Ok()
  {
    Peek(VAlloc(Poke(s, p + k, [v]), size, base).0.w.mem, p + k) == v
  }

  /** On the same page an allocation stores the header and nothing else. */
  lemma HeaderStored(w: World, size: nat, base: nat, a: nat)
    requires w.abi.Ok() && !HeaderOverruns(w, size) && a in w.mem
    ensures Peek(HeaderAlloc(w, size, base).0.mem, a) ==
      if Within(a, w.ar.current, w.abi.wordBytes) then Encode(size, w.abi.wordBytes)[a - w.ar.current]
      else Peek(w.mem, a)
  {
  }

  /** Every value a client may have stored in byte k of a block survives the allocation of the block that
      follows exactly when the byte is intact. */
  lemma SurvivesIffIntact(s: State, p: nat, k: nat, size: nat, base: nat)
    requires VInv(s) && p in s.live && k < s.live[p].size && Follows(s, size, p)
    ensures k < Intact(s, p) <==> forall v: Byte :: ByteKept(s, p, k, v, size, base)
  {
    AtCursor(s, p, k, size);
    if k < Intact(s, p) {
      forall v: Byte ensures ByteKept(s, p, k, v, size, base) {
        HeaderStored(Poke(s, p + k, [v]).w, size, base, p + k);
      }
    } else {
      var v := Other(Encode(size, s.w.abi.wordBytes)[p + k - s.w.ar.current]);
      HeaderStored(Poke(s, p + k, [v]).w, size, base, p + k);
      assert !ByteKept(s, p, k, v, size, base);
    }
  }

  // ---------------------------------------------------------------- the client overwrites the header

  /** After an allocation the client stores `v` into byte k of an older block; is the new header true? */
  ghost predicate HeaderKept(s: State, p: nat, k: nat, v: Byte, size: nat, base: nat)
    requires s.w.abi.Ok()
  {
    var (t, q) := VAlloc(s, size, base);
    HeaderOf(Poke(t, p + k, [v]).w, q) == size
  }

  /** A store into a header reads back as the header with one byte replaced. */
  lemma PokedHeader(s: State, q: nat, a: nat, v: Byte)
    requires q > s.w.abi.wordBytes && Mapped(s.w.mem, q - s.w.abi.wordBytes, s.w.abi.wordBytes)
    requires q - s.w.abi.wordBytes <= a < q
    ensures var word := Load(s.w.mem, q - s.w.abi.wordBytes, s.w.abi.wordBytes);
      var k: nat := a - (q - s.w.abi.wordBytes);
      && (HeaderOf(Poke(s, a, [v]).w, q) > HeaderOf(s.w, q) <==> v > word[k])
      && (HeaderOf(Poke(s, a, [v]).w, q) == HeaderOf(s.w, q) <==> v == word[k])
  {
    var h: nat := q - s.w.abi.wordBytes;
    LoadSplice(s.w.mem, h, s.w.abi.wordBytes, a - h, v);
    SpliceOrder(Load(s.w.mem, h, s.w.abi.wordBytes), a - h, v);
  }

  /** The header written for the block that follows, after a store into byte k of the block below. */
  lemma StoredOver(s: State, p: nat, k: nat, v: Byte, size: nat, base: nat)
    requires VInv(s) && VAllocOk(s, size, base) && p in s.live && k < s.live[p].size && Follows(s, size, p)
    ensures (k < Intact(s, p) <==> p + k < s.w.ar.current) && p + k < s.w.ar.current + s.w.abi.wordBytes
    ensures var (t, q) := VAlloc(s, size, base); ReadsBack(t, s.w.ar.current, q, size, p + k, v)
  {
    AtCursor(s, p, k, size);
    var (t, q) := VAlloc(s, size, base);
    assert Headed(s.w.abi, t, s.w.ar.current, q, size) by {
      HeadedAtCursor(s, size, base);
    }
    BelowOrInside(s.w.abi, t, s.w.ar.current, q, size, p + k, v);
  }

  /** The header at h, below q, holds `size`; after a store at `a` it reads larger, equal or smaller as the
      byte does. */
  ghost predicate ReadsBack(t: State, h: nat, q: nat, size: nat, a: nat, v: Byte)
    requires a < h + t.w.abi.wordBytes
  {
    var n := HeaderOf(Poke(t, a, [v]).w, q);
    && (a < h ==> n == size)
    && (a >= h ==>
          var b := Encode(size, t.w.abi.wordBytes)[a - h];
          (n > size <==> v > b) && (n == size <==> v == b))
  }

  /** At h, below q, there is a header that holds `size`. */
  ghost predicate Headed(abi: Abi, t: State, h: nat, q: nat, size: nat) {
    && t.w.abi == abi && h > 0 && q == h + abi.wordBytes && Mapped(t.w.mem, h, abi.wordBytes)
    && Load(t.w.mem, h, abi.wordBytes) == Encode(size, abi.wordBytes)
    && HeaderOf(t.w, q) == size
  }

  lemma HeadedAtCursor(s: State, size: nat, base: nat)
    requires VInv(s) && VAllocOk(s, size, base) && !HeaderOverruns(s.w, size)
    ensures var (t, q) := VAlloc(s, size, base); Headed(s.w.abi, t, s.w.ar.current, q, size)
  {
    StaysOnPage(s.w, size, base);
    NewHeaderTrue(s, size, base);
  }

  lemma StaysOnPage(w: World, size: nat, base: nat)
    requires w.abi.Ok() && !HeaderOverruns(w, size)
    ensures HeaderAlloc(w, size, base).1 == w.ar.current + w.abi.wordBytes
    ensures HeaderAlloc(w, size, base).0.abi == w.abi
  {
  }

  lemma BelowOrInside(abi: Abi, t: State, h: nat, q: nat, size: nat, a: nat, v: Byte)
    requires Headed(abi, t, h, q, size) && a < q
    ensures ReadsBack(t, h, q, size, a, v)
  {
    if a < h {
      StoreApart(t.w.mem, a, [v], h, abi.wordBytes);
    } else {
      PokedHeader(t, q, a, v);
    }
  }

  /** The header of the block that follows stays true whatever the client stores in byte k of the block
      below exactly when that byte is intact. */
  lemma HeaderTrueIffIntact(s: State, p: nat, k: nat, size: nat, base: nat)
    requires VInv(s) && VAllocOk(s, size, base) && p in s.live && k < s.live[p].size && Follows(s, size, p)
    ensures k < Intact(s, p) <==> forall v: Byte :: HeaderKept(s, p, k, v, size, base)
  {
    forall v: Byte ensures k < Intact(s, p) ==> HeaderKept(s, p, k, v, size, base) {
      StoredOver(s, p, k, v, size, base);
    }
    if k >= Intact(s, p) {
      AtCursor(s, p, k, size);
      var v := Other(Encode(size, s.w.abi.wordBytes)[p + k - s.w.ar.current]);
      StoredOver(s, p, k, v, size, base);
      assert !HeaderKept(s, p, k, v, size, base);
    }
  }

  /** Seen from a state with true headers: a client's store keeps them true for every value exactly when it
      lands in no live header. */
  lemma StoreKeepsHeadersIff(s: State, block: nat, offset: nat)
    requires VInv(s) && HeadersTrue(s) && block in s.live && offset < s.live[block].size
    ensures SparesHeaders(s, Write(block, offset, 0)) <==>
      forall v: Byte :: HeadersTrue(Poke(s, block + offset, [v]))
  {
    if SparesHeaders(s, Write(block, offset, 0)) {
      forall v: Byte ensures HeadersTrue(Poke(s, block + offset, [v])) {
        StepKeepsHeaders(s, Write(block, offset, v));
      }
    } else {
      var q :| q in s.live && q - s.w.abi.wordBytes <= block + offset < q;
      ExtentMapped(s, q);
      assert TrueHeader(s, q);
      var v := Other(Peek(s.w.mem, block + offset));
      PokedHeader(s, q, block + offset, v);
      assert !TrueHeader(Poke(s, block + offset, [v]), q);
    }
  }

  // ---------------------------------------------------------------- the copy escapes

  /** ... and does a reallocarray of the new block then read that block only? */
  ghost predicate CopyKept(s: State, p: nat, k: nat, v: Byte, size: nat, base: nat, total: nat)
    requires s.w.abi.Ok()
  {
    var (t, q) := VAlloc(s, size, base);
    CopyInside(Poke(t, p + k, [v]), q, total)
  }

  /** The copy of a growing reallocarray that must move the new block stays inside it for every value stored
      in byte k of the block below exactly when the byte is intact, or when the header byte it
      shares already is the largest. */
  lemma CopyInsideIff(s: State, p: nat, k: nat, size: nat, base: nat, total: nat)
    requires VInv(s) && VAllocOk(s, size, base) && p in s.live && k < s.live[p].size && Follows(s, size, p)
    requires total > size && !VExtends(VAlloc(s, size, base).0.w, VAlloc(s, size, base).1, total)
    ensures k < Intact(s, p) ==> forall v: Byte :: CopyKept(s, p, k, v, size, base, total)
    ensures k >= Intact(s, p) ==>
      0 <= p + k - s.w.ar.current < s.w.abi.wordBytes
      && (Encode(size, s.w.abi.wordBytes)[p + k - s.w.ar.current] == 255 <==>
            forall v: Byte :: CopyKept(s, p, k, v, size, base, total))
  {
    AtCursor(s, p, k, size);
    VAllocNew(s, size, base);
    forall v: Byte
      ensures CopyKept(s, p, k, v, size, base, total) <==>
        HeaderOf(Poke(VAlloc(s, size, base).0, p + k, [v]).w, VAlloc(s, size, base).1) <= size
    {
    }
    forall v: Byte
      ensures k < Intact(s, p) ==> CopyKept(s, p, k, v, size, base, total)
      ensures k >= Intact(s, p) ==>
        (CopyKept(s, p, k, v, size, base, total) <==> v <= Encode(size, s.w.abi.wordBytes)[p + k - s.w.ar.current])
    {
      StoredOver(s, p, k, v, size, base);
    }
    var top: Byte := 255;
    assert k >= Intact(s, p) ==>
      (CopyKept(s, p, k, top, size, base, total) <==> top <= Encode(size, s.w.abi.wordBytes)[p + k - s.w.ar.current]);
  }

  // ---------------------------------------------------------------- a raw call on the same arena

  /** From the cursor below a rounded end, rounding to any power of two stays at the cursor or passes the
      rounded end. */
  lemma CursorOrBeyond(abi: Abi, current: nat, alignment: nat)
    requires abi.Ok() && IsPowerOfTwo(alignment) && alignment > 0
    requires Aligned(current + abi.wordBytes, abi.maxAlign)
    ensures Aligned(current, alignment) ==> AlignUp(current, alignment) == current
    ensures !Aligned(current, alignment) ==> AlignUp(current, alignment) >= current + abi.wordBytes
  {
    var next := current + abi.wordBytes;
    var x := AlignUp(current, alignment);
    var m := Min(alignment, abi.maxAlign);
    AlignUpAligned(current, alignment);
    if Aligned(current, alignment) {
      RoundingIsAlignUp(current, alignment, current);
    } else {
      PowersNest(alignment, m);
      PowersNest(abi.maxAlign, m);
      MultipleOfMultiple(x, alignment, m);
      MultipleOfMultiple(next, abi.maxAlign, m);
      SmallAlignment(abi, current, alignment);
      if x < next {
        MultiplesApart(x, next, m);
      }
    }
  }

  lemma SmallAlignment(abi: Abi, current: nat, alignment: nat)
    requires abi.Ok() && IsPowerOfTwo(alignment) && alignment > 0
    requires Aligned(current + abi.wordBytes, abi.maxAlign)
    ensures alignment <= abi.wordBytes ==> Aligned(current, alignment)
  {
    if alignment <= abi.wordBytes {
      PowersNest(abi.maxAlign, alignment);
      PowersNest(abi.wordBytes, alignment);
      MultipleOfMultiple(current + abi.wordBytes, abi.maxAlign, alignment);
      AddMultiples(abi.wordBytes, current, alignment);
    }
  }

  /** The two protocols do not mix: a raw allocation on the page of the last vtable block starts inside that
      block exactly when the cursor has the requested alignment and the block's end is not safe. */
  lemma RawMeetsVtable(s: State, p: nat, size: nat, alignment: nat, base: nat)
    requires VInv(s) && p in s.live && IsLast(s.w, p) && s.w.ar.last != 0 && size > 0
    requires IsPowerOfTwo(alignment) && alignment > 0 && !Overruns(s.w, size, alignment)
    ensures var q := Alloc(s.w, size, alignment, base).1;
      !Apart(q, size, p, s.live[p].size) <==>
        Aligned(s.w.ar.current, alignment) && !SafeEnd(s.w.abi, p + s.live[p].size)
  {
    IntactFits(s, p);
    TailRoom(s.w.abi, p + s.live[p].size);
    AlignUpAligned(p + s.live[p].size, s.w.abi.maxAlign);
    CursorOrBeyond(s.w.abi, s.w.ar.current, alignment);
  }

  // ---------------------------------------------------------------- from an initialised arena

  /** The first block of an initialised arena, and a second one on its page. */
  lemma FirstBlock(abi: Abi, pageSize: nat, foreign: Bytes, n: nat, m: nat, base: nat)
    requires abi.Ok() && n > 0 && m > 0 && 2 * abi.maxAlign + n + m <= pageSize
    requires PageAnswer(Fresh(abi, pageSize, foreign).w, n + abi.maxAlign, base)
    ensures var (s, p) := VAlloc(Fresh(abi, pageSize, foreign), n, base);
      && VInv(s) && p in s.live && s.live[p].size == n && VAllocOk(s, m, 0) && Follows(s, m, p)
      && (Intact(s, p) == n <==> SafeEnd(abi, n))
      && VAlloc(s, m, 0).0.w.ar.sentinel == base + pageSize && VAlloc(s, m, 0).1 > base
  {
    var s0 := Fresh(abi, pageSize, foreign);
    var (s, p) := VAlloc(s0, n, base);
    assert p == base + abi.maxAlign && s.w.ar.sentinel == base + pageSize && s.live[p].size == n;
    assert VInv(s) && Next(s, p) == s.w.ar.current + abi.wordBytes by {
      VAllocInv(s0, n, base);
      VAllocNew(s0, n, base);
    }
    FirstEnd(s, p);
    assert SafeEnd(abi, p + n) <==> SafeEnd(abi, n) by {
      NextMultiple(base, abi.maxAlign);
      SizeDecides(abi, p, n);
    }
  }

  lemma FirstEnd(s: State, p: nat)
    requires VInv(s) && p in s.live
    ensures Intact(s, p) == s.live[p].size <==> SafeEnd(s.w.abi, p + s.live[p].size)
    ensures Next(s, p) < p + s.live[p].size + s.w.abi.maxAlign
  {
    IntactFits(s, p);
  }

  /** The condition on sizes is exact for every size: from an initialised arena, what a client stores into
      a block of n bytes survives a second allocation on its page exactly when n is a safe end, and it
      is exactly then that the client's stores cannot falsify the second block's header. On a platform
      whose words are as long as the alignment no size is safe. */
  lemma SafeSizesAreExact(abi: Abi, pageSize: nat, foreign: Bytes, n: nat, m: nat, base: nat, top: nat)
    requires abi.Ok() && n == top + 1 && m > 0 && 2 * abi.maxAlign + n + m <= pageSize
    requires PageAnswer(Fresh(abi, pageSize, foreign).w, n + abi.maxAlign, base)
    ensures var (s, p) := VAlloc(Fresh(abi, pageSize, foreign), n, base);
      && (SafeEnd(abi, n) <==> forall v: Byte :: ByteKept(s, p, top, v, m, 0))
      && (SafeEnd(abi, n) <==> forall v: Byte :: HeaderKept(s, p, top, v, m, 0))
    ensures abi.wordBytes == abi.maxAlign ==> !SafeEnd(abi, n)
  {
    FirstBlock(abi, pageSize, foreign, n, m, base);
    var (s, p) := VAlloc(Fresh(abi, pageSize, foreign), n, base);
    SurvivesIffIntact(s, p, top, m, 0);
    HeaderTrueIffIntact(s, p, top, m, 0);
    NoRoom(abi, n);
  }

  lemma NoRoom(abi: Abi, n: nat)
    requires abi.Ok()
    ensures abi.wordBytes == abi.maxAlign ==> !SafeEnd(abi, n)
  {
  }

  /** The copy does escape: from an initialised arena, two blocks of which the first has an unsafe size and the
      second fewer than 255 bytes; after a store of 255 into the last byte of the first, a
      reallocarray of the second to a page size or more reads beyond the second block. */
  lemma CopyEscapes(abi: Abi, pageSize: nat, foreign: Bytes, n: nat, m: nat, base: nat, total: nat, top: nat)
    requires abi.Ok() && n == top + 1 && 0 < m < 255 && 2 * abi.maxAlign + n + m <= pageSize <= total
    requires PageAnswer(Fresh(abi, pageSize, foreign).w, n + abi.maxAlign, base)
    ensures var (s, p) := VAlloc(Fresh(abi, pageSize, foreign), n, base);
      SafeEnd(abi, n) <==> forall v: Byte :: CopyKept(s, p, top, v, m, 0, total)
  {
    FirstBlock(abi, pageSize, foreign, n, m, base);
    var (s, p) := VAlloc(Fresh(abi, pageSize, foreign), n, base);
    CopyInsideIff(s, p, top, m, 0, total);
    SmallHeader(m, abi.wordBytes);
  }

  /** The protocols do not mix from the start: from an initialised arena, a raw byte allocated after a block of n
      bytes lies inside that block exactly when n is not a safe end. */
  lemma MixingMeets(abi: Abi, pageSize: nat, foreign: Bytes, n: nat, base: nat)
    requires abi.Ok() && n > 0 && 2 * abi.maxAlign + n + 1 <= pageSize
    requires PageAnswer(Fresh(abi, pageSize, foreign).w, n + abi.maxAlign, base)
    ensures var (s, p) := VAlloc(Fresh(abi, pageSize, foreign), n, base);
      var q := Alloc(s.w, 1, 1, 0).1;
      p <= q < p + n <==> !SafeEnd(abi, n)
  {
    FirstBlock(abi, pageSize, foreign, n, 1, base);
    var (s, p) := VAlloc(Fresh(abi, pageSize, foreign), n, base);
    assert 1 == Pow2(0);
    AlignedToOne(s.w.ar.current);
    RoundingIsAlignUp(s.w.ar.current, 1, s.w.ar.current);
    RawMeetsVtable(s, p, 1, 1, 0);
    IntactFits(s, p);
  }

  /** The bytes of a number below 255 are below 255. */
  lemma {:induction false} SmallHeader(m: nat, n: nat)
    requires m < 255
    ensures forall i: nat :: i < n ==> Encode(m, n)[i] < 255
  {
    if n > 0 {
      SmallHeader(m / 256, n - 1);
    }
  }
}
