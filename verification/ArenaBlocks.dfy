/** Stores into live blocks and what they leave alone, for raw and for vtable blocks alike; and what
    the rest of the machine may do meanwhile. */
module ArenaBlocks {
  import opened Words
  import opened Memory
  import opened ArenaModel
  import opened ArenaState

  /** Put bytes into memory (memset, memcpy and client stores). */
  function Poke(s: State, p: nat, data: seq<Byte>): State {
    s.(w := s.w.(mem := Store(s.w.mem, p, data)))
  }

  function Retired(s: State, p: nat): State {
    s.(live := s.live - {p})
  }

  function Reset(s: State, count: nat): State {
    State(ResetKeep(s.w, count), map[], {})
  }

  /** A fresh arena in a machine whose memory already holds other things. */
  function Fresh(abi: Abi, pageSize: nat, foreign: Bytes): State {
    State(World(abi, InitArena(pageSize), map[], foreign), map[], {})
  }

  ghost predicate StartsFresh(s: State) {
    exists abi: Abi, pageSize: nat, foreign: Bytes :: abi.Ok() && s == Fresh(abi, pageSize, foreign)
  }

  // ---------------------------------------------------------------- the rest of the machine

  ghost predicate PageKept(w: World, mem: Bytes, i: nat)
    requires i < |w.ar.pages|
  {
    Mapped(mem, w.ar.pages[i], w.PageBytes(i)) && Agree(mem, w.mem, w.ar.pages[i], w.PageBytes(i))
  }

  /** Other programs, and other arenas, may map, unmap and change memory, but not in these pages. */
  ghost predicate Untouched(w: World, mem: Bytes) {
    forall i: nat {:trigger PageKept(w, mem, i)} :: i < |w.ar.pages| ==> PageKept(w, mem, i)
  }

  function WithMemory(s: State, mem: Bytes): State {
    s.(w := s.w.(mem := mem))
  }

  lemma ElsewherePages(s: State, mem: Bytes)
    requires PagesOk(s.w) && Untouched(s.w, mem)
    ensures PagesOk(WithMemory(s, mem).w)
  {
    var v := WithMemory(s, mem).w;
    forall i: nat | i < |v.ar.pages| ensures PageOk(v, i) {
      assert PageOk(s.w, i) && PageKept(s.w, mem, i);
    }
    forall i: nat, j: nat | i < j < |v.ar.pages| ensures PagePair(v, i, j) {
      assert PagePair(s.w, i, j);
    }
    forall b | b in v.owned ensures Listed(v, b) {
      assert Listed(s.w, b);
    }
  }

  lemma ElsewhereZero(s: State, mem: Bytes)
    requires PagesOk(s.w) && PageOpen(s.w) && FreshIsZero(s) && Untouched(s.w, mem)
    ensures FreshIsZero(WithMemory(s, mem))
  {
    var ar := s.w.ar;
    forall j: nat, a: nat | j < |ar.pages| && Within(a, ar.pages[j], s.w.PageBytes(j))
      ensures Peek(mem, a) == Peek(s.w.mem, a)
    {
      assert PageKept(s.w, mem, j);
    }
    forall j: nat | j < |ar.pages| ensures ar.pageSize <= s.w.PageBytes(j) {
      assert PageOk(s.w, j);
    }
    if ar.pages != [] {
      forall a: nat | ar.pages[ar.pageIndex] <= a < ar.sentinel && a !in s.granted ensures Peek(mem, a) == 0 {
        assert Within(a, ar.pages[ar.pageIndex], s.w.PageBytes(ar.pageIndex));
      }
    }
    forall j: nat, a: nat | ar.pageIndex < j < |ar.pages| && Within(a, ar.pages[j], ar.pageSize) && a !in s.granted
      ensures Peek(mem, a) == 0
    {
      assert Within(a, ar.pages[j], s.w.PageBytes(j));
    }
  }

  /** Bytes of a page are as they were. */
  lemma ElsewhereAgrees(s: State, mem: Bytes, i: nat, p: nat, n: nat)
    requires Untouched(s.w, mem) && i < |s.w.ar.pages|
    requires s.w.ar.pages[i] <= p && p + n <= s.w.ar.pages[i] + s.w.PageBytes(i)
    ensures Mapped(mem, p, n) && Agree(mem, s.w.mem, p, n) && Load(mem, p, n) == Load(s.w.mem, p, n)
  {
    assert PageKept(s.w, mem, i);
    AgreeLoad(mem, s.w.mem, p, n);
  }

  lemma ElsewhereContents(s: State, mem: Bytes)
    requires BlocksOk(s) && Untouched(s.w, mem)
    ensures Keeps(s, WithMemory(s, mem), {}) && HeapOf(WithMemory(s, mem)) == HeapOf(s)
  {
    var t := WithMemory(s, mem);
    forall q | q in s.live ensures KeptBlock(s, t, q) && Contents(t, q) == Contents(s, q) {
      assert BlockOk(s, q);
      ElsewhereAgrees(s, mem, s.live[q].page, q, s.live[q].size);
    }
  }

  // ---------------------------------------------------------------- stores

  /** Storing inside a live block changes that block only. */
  lemma PokeContents(s: State, p: nat, k: nat, data: seq<Byte>)
    requires BlocksApart(s) && p in s.live && k + |data| <= s.live[p].size
    ensures Keeps(s, Poke(s, p + k, data), {p})
  {
    var t := Poke(s, p + k, data);
    forall q | q in s.live && q != p ensures KeptBlock(s, t, q) {
      assert PairApart(s, p, q);
      StoreApart(s.w.mem, p + k, data, q, s.live[q].size);
    }
  }

  lemma PrefixStored(mem: Bytes, p: nat, data: seq<Byte>, n: nat)
    requires Mapped(mem, p, n) && |data| <= n
    ensures Load(Store(mem, p, data), p, n)[..|data|] == data
  {
  }

  lemma CopyThenRetire(s: State, t: State, block: nat, n: nat, p: nat)
    requires block in s.live && p !in s.live && p in t.live && n <= t.live[p].size && n <= s.live[block].size
    requires t.live.Keys == s.live.Keys + {p}
    requires Keeps(s, t, {}) && BlocksApart(t) && Mapped(t.w.mem, p, t.live[p].size)
    ensures var u := Retired(Poke(t, p, Load(t.w.mem, block, n)), block);
      && u.live.Keys == s.live.Keys - {block} + {p} && u.live[p] == t.live[p]
      && Keeps(s, u, {block})
      && Contents(u, p)[..n] == Contents(s, block)[..n]
  {
    var data := Load(t.w.mem, block, n);
    var v := Poke(t, p, data);
    var u := Retired(v, block);
    assert Keeps(s, u, {block}) by {
      PokeContents(t, p, 0, data);
      KeepsThenKeeps(s, t, v, p);
      forall q | q in s.live && q != block ensures KeptBlock(s, u, q) {
        assert KeptBlock(s, v, q);
      }
    }
    assert Contents(u, p)[..n] == data by {
      PrefixStored(t.w.mem, p, data, t.live[p].size);
    }
    assert KeptBlock(s, t, block);
  }

  lemma FilledContents(s: State, u: State, p: nat, data: seq<Byte>)
    requires BlocksApart(u) && p in u.live && p !in s.live && |data| == u.live[p].size
    requires Keeps(s, u, {}) && Mapped(u.w.mem, p, |data|)
    ensures Keeps(s, Poke(u, p, data), {}) && Contents(Poke(u, p, data), p) == data
  {
    var t := Poke(u, p, data);
    assert Keeps(s, t, {}) by {
      PokeContents(u, p, 0, data);
      KeepsThenKeeps(s, u, t, p);
    }
    assert Contents(t, p) == data by {
      LoadStore(u.w.mem, p, data);
    }
  }

  lemma KeepsThenKeeps(s: State, u: State, t: State, p: nat)
    requires Keeps(s, u, {}) && Keeps(u, t, {p}) && p !in s.live
    ensures Keeps(s, t, {})
  {
    forall q | q in s.live ensures KeptBlock(s, t, q) {
      assert KeptBlock(s, u, q) && KeptBlock(u, t, q);
    }
  }

  /** Abstractly: `h2` is `h1` with the blocks in `gone` replaced by a block at `p` of `n` bytes
      that lies apart from every block that stays. */
  ghost predicate Replaces(h1: Heap, gone: set<nat>, p: nat, n: nat, h2: Heap) {
    && h2.Keys == h1.Keys - gone + {p}
    && |h2[p]| == n
    && forall q :: q in h1 && q !in gone ==> q != p && h2[q] == h1[q] && Apart(p, n, q, |h1[q]|)
  }

  /** What the step lemmas say of live blocks, as a step of abstract heaps. */
  lemma AsReplacement(s: State, t: State, gone: set<nat>, p: nat)
    requires BlocksApart(t) && Keeps(s, t, gone) && p in t.live
    requires t.live.Keys == s.live.Keys - gone + {p} && (p in gone || p !in s.live)
    ensures Replaces(HeapOf(s), gone, p, t.live[p].size, HeapOf(t))
  {
    forall q | q in s.live && q !in gone
      ensures q != p && Contents(t, q) == Contents(s, q) && Apart(p, t.live[p].size, q, s.live[q].size)
    {
      assert KeptBlock(s, t, q) && PairApart(t, p, q);
    }
  }

  lemma WriteRefines(s: State, p: nat, k: nat, value: Byte)
    requires BlocksApart(s) && p in s.live && k < s.live[p].size && Mapped(s.w.mem, p, s.live[p].size)
    ensures HeapOf(Poke(s, p + k, [value])) == HeapOf(s)[p := Splice(HeapOf(s)[p], k, value)]
  {
    var t := Poke(s, p + k, [value]);
    PokeContents(s, p, k, [value]);
    LoadSplice(s.w.mem, p, s.live[p].size, k, value);
    forall q | q in s.live && q != p ensures Contents(t, q) == Contents(s, q) {
      assert KeptBlock(s, t, q);
    }
  }
}
