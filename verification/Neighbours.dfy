/** Arenas that share a machine: what one of them does happens, for every other, elsewhere. */
module Neighbours {
  import opened Words
  import opened Memory
  import opened ArenaModel
  import opened ArenaState
  import opened ArenaBlocks
  import opened RawRuns
  import opened RawTheorems
  import opened VtableRuns
  import opened VtableSteps
  import opened VtableTheorems

  // ---------------------------------------------------------------- what a call may change

  ghost predicate ByteSpared(w: World, v: World, a: nat) {
    a in w.mem && !InPages(w, a) ==> a in v.mem && v.mem[a] == w.mem[a]
  }

  /** Page i was this arena's page i before, or it was unmapped. */
  ghost predicate PageFrom(w: World, v: World, i: nat)
    requires i < |v.ar.pages|
  {
    || (i < |w.ar.pages| && v.ar.pages[i] == w.ar.pages[i] && v.PageBytes(i) == w.PageBytes(i))
    || Unmapped(w.mem, v.ar.pages[i], v.PageBytes(i))
  }

  /** Mapped memory changed in the arena's own pages only, and new pages came from unmapped memory. */
  ghost predicate Confined(w: World, v: World) {
    && (forall a: nat {:trigger ByteSpared(w, v, a)} :: ByteSpared(w, v, a))
    && (forall i: nat {:trigger PageFrom(w, v, i)} :: i < |v.ar.pages| ==> PageFrom(w, v, i))
  }

  lemma SameConfined(w: World, v: World, u: World)
    requires Confined(w, v) && u.mem == v.mem && u.owned == v.owned && u.ar.pages == v.ar.pages
    ensures Confined(w, u)
  {
    forall a: nat ensures ByteSpared(w, u, a) {
      assert ByteSpared(w, v, a);
    }
    forall i: nat | i < |u.ar.pages| ensures PageFrom(w, u, i) {
      assert PageFrom(w, v, i);
    }
  }

  lemma NothingConfined(w: World)
    ensures Confined(w, w)
  {
    forall i: nat | i < |w.ar.pages| ensures PageFrom(w, w, i) { }
  }

  /** A store into a page. */
  lemma StoreConfined(w: World, v: World, p: nat, data: seq<Byte>, i: nat)
    requires Confined(w, v) && i < |v.ar.pages|
    requires v.ar.pages[i] <= p && p + |data| <= v.ar.pages[i] + v.PageBytes(i)
    ensures Confined(w, v.(mem := Store(v.mem, p, data)))
  {
    var u := v.(mem := Store(v.mem, p, data));
    assert PageFrom(w, v, i);
    forall a: nat ensures ByteSpared(w, u, a) {
      assert ByteSpared(w, v, a);
      if i < |w.ar.pages| && Within(a, w.ar.pages[i], w.PageBytes(i)) {
        assert InPages(w, a);
      }
    }
    forall j: nat | j < |u.ar.pages| ensures PageFrom(w, u, j) {
      assert PageFrom(w, v, j);
    }
  }

  lemma NewPageConfined(w: World, minSize: nat, base: nat)
    requires PagesOk(w)
    requires !Recycles(w.ar, minSize) ==> PageAnswer(w, minSize, base)
    ensures Confined(w, NewPage(w, minSize, base))
  {
    var v := NewPage(w, minSize, base);
    if Recycles(w.ar, minSize) {
      NothingConfined(w);
      SameConfined(w, w, v);
    } else {
      FreshPageOk(w, minSize, base);
      forall i: nat | i < |v.ar.pages| ensures PageFrom(w, v, i) { }
      forall a: nat ensures ByteSpared(w, v, a) { }
    }
  }

  /** A reset gives back and clears its own pages only. */
  lemma ResetConfined(w: World, count: nat)
    requires PagesOk(w)
    ensures Confined(w, ResetKeep(w, count))
  {
    var v := ResetKeep(w, count);
    var n := |w.ar.pages|;
    var keep := Min(count, n);
    forall i: nat | i < |v.ar.pages| ensures PageFrom(w, v, i) {
      KeptOwned(w, count, i);
    }
    forall a: nat ensures ByteSpared(w, v, a) {
      if a in w.mem && !InPages(w, a) && n > 0 {
        forall i: nat | i < n
          ensures !Within(a, w.ar.pages[i], SizeIn(w.owned, w.ar.pages[i]))
          ensures !Within(a, w.ar.pages[i], w.ar.pageSize)
        {
          assert PageOk(w, i);
          assert !Within(a, w.ar.pages[i], w.PageBytes(i));
        }
        DroppedAt(w.mem, w.owned, w.ar.pages, keep, n, a);
        ZeroedAt(Dropped(w.mem, w.owned, w.ar.pages, keep, n), w.ar.pages, w.ar.pageSize, keep, a);
      }
    }
  }

  // ---------------------------------------------------------------- raw calls

  lemma AllocConfined(w: World, size: nat, alignment: nat, base: nat)
    requires PagesOk(w) && size > 0 && alignment > 0 && AllocAnswer(w, size, alignment, base)
    ensures Confined(w, Alloc(w, size, alignment, base).0)
  {
    if Overruns(w, size, alignment) {
      NewPageConfined(w, size + alignment - 1, base);
      SameConfined(w, NewPage(w, size + alignment - 1, base), Alloc(w, size, alignment, base).0);
    } else {
      NothingConfined(w);
      SameConfined(w, w, Alloc(w, size, alignment, base).0);
    }
  }

  /** A store into a live block. */
  lemma PokeConfined(w: World, t: State, p: nat, k: nat, data: seq<Byte>)
    requires Confined(w, t.w) && p in t.live && BlockOk(t, p) && k + |data| <= t.live[p].size
    ensures Confined(w, Poke(t, p + k, data).w)
  {
    StoreConfined(w, t.w, p + k, data, t.live[p].page);
  }

  lemma FillConfined(w: World, t: State, p: nat, data: seq<Byte>)
    requires Confined(w, t.w) && p in t.live && BlockOk(t, p) && |data| <= t.live[p].size
    ensures Confined(w, Poke(t, p, data).w)
  {
    PokeConfined(w, t, p, 0, data);
  }

  lemma FilledConfined(s: State, size: nat, alignment: nat, base: nat, data: seq<Byte>)
    requires RawInv(s) && AllocOk(s, size, alignment, base) && |data| <= size
    ensures var (t, p) := RawAlloc(s, size, alignment, base); Confined(s.w, Poke(t, p, data).w)
  {
    var (t, p) := RawAlloc(s, size, alignment, base);
    AllocConfined(s.w, size, alignment, base);
    AllocBlocks(s, size, alignment, base);
    assert BlockOk(t, p);
    FillConfined(s.w, t, p, data);
  }

  lemma ResizeConfined(s: State, block: nat, oldSize: nat, newSize: nat, alignment: nat, base: nat)
    requires RawInv(s) && ReallocOk(s, block, oldSize, newSize, alignment, base)
    ensures Confined(s.w, RawRealloc(s, block, oldSize, newSize, alignment, base).0.w)
  {
    if block == 0 {
      AllocConfined(s.w, newSize, alignment, base);
    } else if ExtendsInPlace(s.w.ar, block, newSize) {
      NothingConfined(s.w);
      SameConfined(s.w, s.w, Resized(s, block, newSize).w);
    } else {
      var t := RawAlloc(s, newSize, alignment, base).0;
      FilledConfined(s, newSize, alignment, base, Load(t.w.mem, block, Min(oldSize, newSize)));
    }
  }

  /** Every raw call, client store and reset stays within the arena's pages. */
  lemma RawStepConfined(s: State, op: RawOp)
    requires RawInv(s) && RawOpOk(s, op) && !op.Elsewhere?
    ensures Confined(s.w, RawStep(s, op).0.w)
  {
    match op
    case Get(size, alignment, base) => AllocConfined(s.w, size, alignment, base);
    case GetZeroed(size, alignment, base) => FilledConfined(s, size, alignment, base, Repeat(0, size));
    case Resize(block, oldSize, newSize, alignment, base) =>
      ResizeConfined(s, block, oldSize, newSize, alignment, base);
    case Dup(src, data, base) =>
      FilledConfined(s, |data|, 1, base, Load(RawAlloc(s, |data|, 1, base).0.w.mem, src, |data|));
    case DupString(src, text, base) =>
      FilledConfined(s, |text| + 1, 1, base, Load(RawAlloc(s, |text| + 1, 1, base).0.w.mem, src, |text| + 1));
    case Write(block, offset, value) =>
      assert BlockOk(s, block);
      NothingConfined(s.w);
      PokeConfined(s.w, s, block, offset, [value]);
    case Rewind(count) => ResetConfined(s.w, count);
    case RewindPercent(percent) => ResetConfined(s.w, KeepCount(|s.w.ar.pages|, percent));
  }

  // ---------------------------------------------------------------- protocol calls

  lemma PlaceConfined(w: World, size: nat, base: nat)
    requires PagesOk(w) && HeaderAnswer(w, size, base)
    ensures Confined(w, HeaderPlace(w, size, base))
  {
    var u := HeaderPlace(w, size, base);
    if HeaderOverruns(w, size) {
      var v := NewPage(w, size + w.abi.maxAlign, base);
      assert u.mem == v.mem && u.owned == v.owned && u.ar.pages == v.ar.pages;
      assert Confined(w, v) by {
        NewPageConfined(w, size + w.abi.maxAlign, base);
      }
      SameConfined(w, v, u);
    } else {
      assert u == w;
      NothingConfined(w);
    }
  }

  lemma HeaderConfined(w: World, size: nat, base: nat)
    requires VCursorOk(w) && size > 0 && HeaderAnswer(w, size, base)
    ensures Confined(w, HeaderAlloc(w, size, base).0)
  {
    var v := HeaderPlace(w, size, base);
    var data := Encode(size, w.abi.wordBytes);
    PlaceConfined(w, size, base);
    PlaceFits(w, size, base);
    StoreConfined(w, v, v.ar.current, data, v.ar.pageIndex);
    SameConfined(w, v.(mem := Store(v.mem, v.ar.current, data)), HeaderAlloc(w, size, base).0);
  }

  lemma VFilledConfined(s: State, size: nat, base: nat, data: seq<Byte>)
    requires VInv(s) && VAllocOk(s, size, base) && |data| <= size
    ensures var (t, p) := VAlloc(s, size, base); Confined(s.w, Poke(t, p, data).w)
  {
    var (t, p) := VAlloc(s, size, base);
    HeaderConfined(s.w, size, base);
    VAllocNew(s, size, base);
    FillConfined(s.w, t, p, data);
  }

  lemma VResizedConfined(s: State, p: nat, size: nat)
    requires VInv(s) && p in s.live && p >= s.w.abi.wordBytes
    ensures Confined(s.w, VResized(s, p, size).w)
  {
    var h := p - s.w.abi.wordBytes;
    var data := Encode(size, s.w.abi.wordBytes);
    VBlock(s, p);
    NothingConfined(s.w);
    StoreConfined(s.w, s.w, h, data, s.live[p].page);
    SameConfined(s.w, s.w.(mem := Store(s.w.mem, h, data)), VResized(s, p, size).w);
  }

  lemma VReallocConfined(s: State, block: nat, total: nat, base: nat)
    requires VInv(s) && VReallocOk(s, block, total, base)
    ensures Confined(s.w, VRealloc(s, block, total, base).0.w)
  {
    if block == 0 {
      HeaderConfined(s.w, total, base);
    } else if VExtends(s.w, block, total) {
      VResizedConfined(s, block, total);
    } else {
      var t := VAlloc(s, total, base).0;
      VFilledConfined(s, total, base, Load(t.w.mem, block, Min(HeaderOf(s.w, block), total)));
    }
  }

  /** Every protocol call, client store and reset stays within the arena's pages, for arbitrary sizes. */
  lemma VStepConfined(s: State, op: VOp)
    requires VInv(s) && VOpOk(s, op) && !op.Elsewhere?
    ensures Confined(s.w, VStep(s, op).0.w)
  {
    match op
    case Calloc(n, size, base) => VFilledConfined(s, n * size, base, Repeat(0, n * size));
    case Reallocarray(block, n, size, base) => VReallocConfined(s, block, n * size, base);
    case Free(block) =>
      NothingConfined(s.w);
      SameConfined(s.w, s.w, VFree(s, block).w);
    case Write(block, offset, value) =>
      assert BlockOk(s, block);
      NothingConfined(s.w);
      PokeConfined(s.w, s, block, offset, [value]);
    case Rewind(count) => ResetConfined(s.w, count);
    case RewindPercent(percent) => ResetConfined(s.w, KeepCount(|s.w.ar.pages|, percent));
  }

  // ---------------------------------------------------------------- two arenas

  ghost predicate PagesBetween(w: World, b: World, i: nat, j: nat)
    requires i < |w.ar.pages| && j < |b.ar.pages|
  {
    Apart(w.ar.pages[i], w.PageBytes(i), b.ar.pages[j], b.PageBytes(j))
  }

  /** No page of the one meets a page of the other. */
  ghost predicate Separated(w: World, b: World) {
    forall i: nat, j: nat {:trigger PagesBetween(w, b, i, j)} ::
      i < |w.ar.pages| && j < |b.ar.pages| ==> PagesBetween(w, b, i, j)
  }

  lemma SeparatedBoth(w: World, b: World)
    requires Separated(w, b)
    ensures Separated(b, w)
  {
    forall j: nat, i: nat | j < |b.ar.pages| && i < |w.ar.pages| ensures PagesBetween(b, w, j, i) {
      assert PagesBetween(w, b, i, j);
    }
  }

  /** What one arena does is for the other a change elsewhere, and their pages stay separate. */
  lemma ConfinedIsElsewhere(w: World, v: World, b: World)
    requires PagesOk(b) && PagesOk(v) && Separated(w, b) && w.mem == b.mem && Confined(w, v)
    ensures Untouched(b, v.mem) && Separated(v, b.(mem := v.mem))
  {
    forall j: nat | j < |b.ar.pages| ensures PageKept(b, v.mem, j) {
      assert PageOk(b, j);
      forall a: nat | b.ar.pages[j] <= a < b.ar.pages[j] + b.PageBytes(j)
        ensures a in v.mem && v.mem[a] == b.mem[a]
      {
        forall i: nat | i < |w.ar.pages| ensures !Within(a, w.ar.pages[i], w.PageBytes(i)) {
          assert PagesBetween(w, b, i, j);
        }
        assert ByteSpared(w, v, a);
      }
    }
    forall i: nat, j: nat | i < |v.ar.pages| && j < |b.ar.pages| ensures PagesBetween(v, b.(mem := v.mem), i, j) {
      assert PageFrom(w, v, i) && PageOk(v, i) && PageOk(b, j);
      if Unmapped(w.mem, v.ar.pages[i], v.PageBytes(i)) {
        MappedApart(w.mem, v.ar.pages[i], v.PageBytes(i), b.ar.pages[j], b.PageBytes(j));
      } else {
        assert PagesBetween(w, b, i, j);
      }
    }
  }

  /** Separation is a matter of page lists, not of memory. */
  lemma SeparatedInMemory(w: World, b: World, mem: Bytes)
    requires Separated(w, b)
    ensures Separated(w.(mem := mem), b.(mem := mem))
  {
    var v, c := w.(mem := mem), b.(mem := mem);
    forall i: nat, j: nat | i < |v.ar.pages| && j < |c.ar.pages| ensures PagesBetween(v, c, i, j) {
      assert PagesBetween(w, b, i, j);
    }
  }

  // ---------------------------------------------------------------- any number of arenas

  /** An arena is used through the raw calls or through the protocol. */
  ghost predicate Sound(s: State, raw: bool) {
    if raw then RawInv(s) else VInv(s)
  }

  /** Whose turn it is, and what its client does. */
  datatype Turn = RawTurn(who: nat, rop: RawOp) | VTurn(who: nat, vop: VOp)

  ghost predicate CallOk(s: State, raw: bool, turn: Turn) {
    match turn
    case RawTurn(_, op) => raw && !op.Elsewhere? && RawOpOk(s, op)
    case VTurn(_, op) => !raw && !op.Elsewhere? && s.w.abi.Ok() && VOpOk(s, op)
  }

  function Called(s: State, turn: Turn): (State, nat)
    requires turn.RawTurn? ==> RawOpOk(s, turn.rop)
    requires turn.VTurn? ==> s.w.abi.Ok() && VOpArgs(s, turn.vop)
  {
    match turn
    case RawTurn(_, op) => RawStep(s, op)
    case VTurn(_, op) => VStep(s, op)
  }

  ghost predicate TurnOk(ss: seq<State>, raws: seq<bool>, turn: Turn) {
    |ss| == |raws| && turn.who < |ss| && CallOk(ss[turn.who], raws[turn.who], turn)
  }

  /** One arena steps; all others see memory change. */
  ghost function Turned(ss: seq<State>, raws: seq<bool>, turn: Turn): (seq<State>, nat)
    requires TurnOk(ss, raws, turn)
  {
    var (t, p) := Called(ss[turn.who], turn);
    (seq(|ss|, k requires 0 <= k < |ss| => if k == turn.who then t else WithMemory(ss[k], t.w.mem)), p)
  }

  ghost predicate SoundAt(ss: seq<State>, raws: seq<bool>, k: nat)
    requires k < |ss| && k < |raws|
  {
    Sound(ss[k], raws[k])
  }

  ghost predicate SideBySide(ss: seq<State>, k: nat, l: nat)
    requires k < |ss| && l < |ss|
  {
    ss[k].w.mem == ss[l].w.mem && Separated(ss[k].w, ss[l].w)
  }

  /** All arenas are sound, see one memory, and share no page. */
  ghost predicate Together(ss: seq<State>, raws: seq<bool>) {
    && |ss| == |raws|
    && (forall k: nat {:trigger SoundAt(ss, raws, k)} :: k < |ss| ==> SoundAt(ss, raws, k))
    && (forall k: nat, l: nat {:trigger SideBySide(ss, k, l)} ::
          k < |ss| && l < |ss| && k != l ==> SideBySide(ss, k, l))
  }

  /** A call keeps its arena sound and stays within its pages. */
  lemma CallConfined(s: State, raw: bool, turn: Turn)
    requires Sound(s, raw) && CallOk(s, raw, turn)
    ensures var t := Called(s, turn).0; Sound(t, raw) && Confined(s.w, t.w)
  {
    match turn
    case RawTurn(_, op) =>
      RawStepInv(s, op);
      RawStepConfined(s, op);
    case VTurn(_, op) =>
      VStepInv(s, op);
      VStepConfined(s, op);
  }

  /** What it means for another arena. */
  lemma OtherArena(s: State, t: State, b: State, raw: bool, other: bool)
    requires Sound(s, raw) && Sound(t, raw) && Sound(b, other) && Confined(s.w, t.w)
    requires s.w.mem == b.w.mem && Separated(s.w, b.w)
    ensures var c := WithMemory(b, t.w.mem);
      Untouched(b.w, t.w.mem) && Sound(c, other) && Separated(t.w, c.w) && Separated(c.w, t.w)
  {
    ConfinedIsElsewhere(s.w, t.w, b.w);
    SeparatedBoth(t.w, WithMemory(b, t.w.mem).w);
    if other {
      ElsewhereInv(b, t.w.mem);
    } else {
      VElsewhereInv(b, t.w.mem);
    }
  }

  /** A turn leaves the pages of all other arenas as they are, and the arenas together. */
  lemma TurnTogether(ss: seq<State>, raws: seq<bool>, turn: Turn)
    requires Together(ss, raws) && TurnOk(ss, raws, turn)
    ensures Together(Turned(ss, raws, turn).0, raws)
    ensures forall k: nat :: k < |ss| && k != turn.who ==> Untouched(ss[k].w, Called(ss[turn.who], turn).0.w.mem)
  {
    var who := turn.who;
    var s, t := ss[who], Called(ss[who], turn).0;
    var ts := Turned(ss, raws, turn).0;
    assert SoundAt(ss, raws, who);
    CallConfined(s, raws[who], turn);
    forall k: nat | k < |ss|
      ensures SoundAt(ts, raws, k)
      ensures k != who ==> Untouched(ss[k].w, t.w.mem) && SideBySide(ts, who, k) && SideBySide(ts, k, who)
    {
      if k != who {
        assert SoundAt(ss, raws, k) && SideBySide(ss, who, k);
        OtherArena(s, t, ss[k], raws[who], raws[k]);
      }
    }
    forall k: nat, l: nat | k < |ts| && l < |ts| && k != l ensures SideBySide(ts, k, l) {
      if k != who && l != who {
        assert SideBySide(ss, k, l);
        SeparatedInMemory(ss[k].w, ss[l].w, t.w.mem);
      }
    }
  }

  // ---------------------------------------------------------------- runs side by side

  ghost predicate SharedAt(runs: seq<seq<State>>, raws: seq<bool>, turns: seq<Turn>, ps: seq<nat>, i: nat)
    requires i < |turns| && |runs| == |turns| + 1 && |ps| == |turns|
  {
    TurnOk(runs[i], raws, turns[i]) && Turned(runs[i], raws, turns[i]) == (runs[i + 1], ps[i])
  }

  /** The arenas of a machine, used in any order: all their states at every point, the turns taken, and
      the pointers returned. */
  ghost predicate IsShared(runs: seq<seq<State>>, raws: seq<bool>, turns: seq<Turn>, ps: seq<nat>) {
    && |runs| == |turns| + 1 && |ps| == |turns|
    && (forall i: nat {:trigger runs[i]} :: i < |runs| ==> |runs[i]| == |raws|)
    && (forall i: nat {:trigger SharedAt(runs, raws, turns, ps, i)} ::
          i < |turns| ==> SharedAt(runs, raws, turns, ps, i))
  }

  lemma {:induction false} SharedTogether(runs: seq<seq<State>>, raws: seq<bool>, turns: seq<Turn>, ps: seq<nat>,
                                          i: nat)
    requires IsShared(runs, raws, turns, ps) && Together(runs[0], raws) && i <= |turns|
    ensures Together(runs[i], raws)
  {
    if i > 0 {
      SharedTogether(runs, raws, turns, ps, i - 1);
      assert SharedAt(runs, raws, turns, ps, i - 1);
      TurnTogether(runs[i - 1], raws, turns[i - 1]);
    }
  }

  /** The states of one arena. */
  ghost function Column(runs: seq<seq<State>>, k: nat): (r: seq<State>)
    requires forall i: nat {:trigger runs[i]} :: i < |runs| ==> k < |runs[i]|
    ensures |r| == |runs| && forall i: nat {:trigger r[i]} :: i < |r| ==> r[i] == runs[i][k]
  {
    seq(|runs|, i requires 0 <= i < |runs| => runs[i][k])
  }

  /** The machine as the client of a raw arena sees it. */
  ghost function RawView(states: seq<State>, turns: seq<Turn>, k: nat): (r: seq<RawOp>)
    requires |states| == |turns| + 1
    ensures |r| == |turns|
  {
    seq(|turns|, i requires 0 <= i < |turns| =>
      if turns[i].RawTurn? && turns[i].who == k then turns[i].rop else RawOp.Elsewhere(states[i + 1].w.mem))
  }

  /** ... and as the client of a protocol arena sees it. */
  ghost function VView(states: seq<State>, turns: seq<Turn>, k: nat): (r: seq<VOp>)
    requires |states| == |turns| + 1
    ensures |r| == |turns|
  {
    seq(|turns|, i requires 0 <= i < |turns| =>
      if turns[i].VTurn? && turns[i].who == k then turns[i].vop else VOp.Elsewhere(states[i + 1].w.mem))
  }

  /** The pointers answered to one client. */
  function AnswersTo(turns: seq<Turn>, ps: seq<nat>, k: nat): (r: seq<nat>)
    requires |ps| == |turns|
    ensures |r| == |turns|
  {
    seq(|turns|, i requires 0 <= i < |turns| => if turns[i].who == k then ps[i] else 0)
  }

  /** Step i as one arena sees it: its own call, or a change elsewhere. */
  lemma SharedStep(runs: seq<seq<State>>, raws: seq<bool>, turns: seq<Turn>, ps: seq<nat>, k: nat, i: nat)
    requires IsShared(runs, raws, turns, ps) && Together(runs[0], raws) && k < |raws| && i < |turns|
    ensures |runs[i]| == |raws| && |runs[i + 1]| == |raws| && Sound(runs[i][k], raws[k])
    ensures turns[i].who == k ==>
      CallOk(runs[i][k], raws[k], turns[i]) && Called(runs[i][k], turns[i]) == (runs[i + 1][k], ps[i])
    ensures turns[i].who != k ==>
      Untouched(runs[i][k].w, runs[i + 1][k].w.mem) && runs[i + 1][k] == WithMemory(runs[i][k], runs[i + 1][k].w.mem)
  {
    SharedTogether(runs, raws, turns, ps, i);
    assert SharedAt(runs, raws, turns, ps, i) && SoundAt(runs[i], raws, k);
    TurnTogether(runs[i], raws, turns[i]);
  }

  /** Any number of arenas on one machine, used in any order, some raw and some through the protocol: each has a
      run of its own, in which the steps of the others happen elsewhere. So all that is proved of runs holds
      of every one of them. */
  lemma SharedRuns(runs: seq<seq<State>>, raws: seq<bool>, turns: seq<Turn>, ps: seq<nat>, k: nat)
    requires IsShared(runs, raws, turns, ps) && Together(runs[0], raws) && k < |raws|
    ensures var states := Column(runs, k);
      if raws[k] then IsRun(states, RawView(states, turns, k), AnswersTo(turns, ps, k))
      else IsVRun(states, VView(states, turns, k), AnswersTo(turns, ps, k))
  {
    var states, answers := Column(runs, k), AnswersTo(turns, ps, k);
    if raws[k] {
      var ops := RawView(states, turns, k);
      forall i: nat | i < |turns| ensures StepAt(states, ops, answers, i) {
        SharedStep(runs, raws, turns, ps, k, i);
      }
    } else {
      var ops := VView(states, turns, k);
      forall i: nat | i < |turns| ensures VCallAt(states, ops, answers, i) && CopyAt(states, ops, i) {
        SharedStep(runs, raws, turns, ps, k, i);
      }
    }
  }

  /** Where the bytes of a block begin, its header included. */
  function Start(s: State, raw: bool, p: nat): int {
    if raw then p else p - s.w.abi.wordBytes
  }

  /** No block of one arena, with its header, ever meets a block of another. */
  lemma SharedBlocksApart(runs: seq<seq<State>>, raws: seq<bool>, turns: seq<Turn>, ps: seq<nat>, i: nat,
                          k: nat, p: nat, l: nat, q: nat)
    requires IsShared(runs, raws, turns, ps) && Together(runs[0], raws) && i <= |turns|
    requires k < |raws| && l < |raws| && k != l && p in runs[i][k].live && q in runs[i][l].live
    ensures var b, c := runs[i][k].live[p], runs[i][l].live[q];
      || p + b.size <= Start(runs[i][l], raws[l], q)
      || q + c.size <= Start(runs[i][k], raws[k], p)
  {
    SharedTogether(runs, raws, turns, ps, i);
    assert SoundAt(runs[i], raws, k) && SoundAt(runs[i], raws, l) && SideBySide(runs[i], k, l);
    BlockInPage(runs[i][k], raws[k], p);
    BlockInPage(runs[i][l], raws[l], q);
    assert PagesBetween(runs[i][k].w, runs[i][l].w, runs[i][k].live[p].page, runs[i][l].live[q].page);
  }

  lemma BlockInPage(s: State, raw: bool, p: nat)
    requires Sound(s, raw) && p in s.live
    ensures var b := s.live[p];
      && b.page < |s.w.ar.pages| && b.size > 0
      && s.w.ar.pages[b.page] <= Start(s, raw, p)
      && p + b.size <= s.w.ar.pages[b.page] + s.w.PageBytes(b.page)
  {
    assert BlockOk(s, p);
    if !raw {
      VBlock(s, p);
    }
  }

  // ---------------------------------------------------------------- from initialised arenas

  /** Initialised arenas on a machine whose memory already holds other things. */
  ghost function FreshAll(abis: seq<Abi>, sizes: seq<nat>, foreign: Bytes): (r: seq<State>)
    requires |abis| == |sizes|
    ensures |r| == |abis|
  {
    seq(|abis|, k requires 0 <= k < |abis| => Fresh(abis[k], sizes[k], foreign))
  }

  lemma FreshTogether(abis: seq<Abi>, sizes: seq<nat>, foreign: Bytes, raws: seq<bool>)
    requires |abis| == |sizes| == |raws| && forall k: nat {:trigger abis[k]} :: k < |abis| ==> abis[k].Ok()
    ensures Together(FreshAll(abis, sizes, foreign), raws)
  {
    var ss := FreshAll(abis, sizes, foreign);
    forall k: nat | k < |ss| ensures SoundAt(ss, raws, k) {
      FreshInv(abis[k], sizes[k], foreign);
      FreshSafe(ss[k]);
    }
  }

  /** From initialised arenas, each arena is after any number of turns in a state it could have reached by itself: the
      theorems on reachable states hold of every arena among any others. */
  lemma SharedReachable(runs: seq<seq<State>>, raws: seq<bool>, turns: seq<Turn>, ps: seq<nat>,
                        abis: seq<Abi>, sizes: seq<nat>, foreign: Bytes, k: nat)
    requires IsShared(runs, raws, turns, ps) && |abis| == |sizes| == |raws| && k < |raws|
    requires forall j: nat {:trigger abis[j]} :: j < |abis| ==> abis[j].Ok()
    requires runs[0] == FreshAll(abis, sizes, foreign)
    ensures |runs[|turns|]| == |raws|
    ensures if raws[k] then Reachable(runs[|turns|][k]) else VReachable(runs[|turns|][k])
  {
    FreshTogether(abis, sizes, foreign, raws);
    SharedRuns(runs, raws, turns, ps, k);
    var states := Column(runs, k);
    assert StartsFresh(states[0]);
    assert states[|turns|] == runs[|turns|][k];
  }
}
