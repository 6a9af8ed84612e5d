/** Clients that drive an arena object through any sequence of operations. The object's state is at
    every point the state of the value model, so what is proved of runs holds of the object. */
module Drivers {
  import opened Words
  import opened Memory
  import opened ArenaModel
  import opened ArenaState
  import opened ArenaBlocks
  import opened RawRuns
  import opened RawTheorems
  import opened VtableRuns
  import opened VtableSteps
  import opened VtableTheorems
  import opened Neighbours
  import opened Arena

  // ---------------------------------------------------------------- raw calls

  /** The sums of a raw call stay below the address limit, and its alignment passes the bit test. */
  predicate RawFits(s: State, op: RawOp) {
    match op
    case Get(size, alignment, _) => RawSumsFit(s, size, alignment)
    case GetZeroed(size, alignment, _) => RawSumsFit(s, size, alignment)
    case Resize(_, _, newSize, alignment, _) => RawSumsFit(s, newSize, alignment)
    case Dup(_, data, _) => RawSumsFit(s, |data|, 1)
    case DupString(_, text, _) => RawSumsFit(s, |text| + 1, 1)
    case Write(_, _, _) => true
    case Rewind(_) => true
    case RewindPercent(percent) => |s.w.ar.pages| * Min(percent, 100) + 99 < s.w.abi.Limit()
    case Elsewhere(_) => true
  }

  predicate RawSumsFit(s: State, size: nat, alignment: nat) {
    && alignment > 0 && And(alignment, alignment - 1) == 0
    && s.w.ar.current + alignment - 1 + size < s.w.abi.Limit()
  }

  method RawCall(a: MulleArena, op: RawOp) returns (p: nat)
    requires RawInv(a.Abs()) && RawOpOk(a.Abs(), op) && RawFits(a.Abs(), op)
    modifies a, a.sys
    ensures (a.Abs(), p) == RawStep(old(a.Abs()), op)
    ensures RawInv(a.Abs())
  {
    ghost var s := a.Abs();
    match op {
      case Get(size, alignment, base) => p := a.Alloc(size, alignment, base);
      case GetZeroed(size, alignment, base) => p := a.Calloc(size, alignment, base);
      case Resize(block, oldSize, newSize, alignment, base) =>
        p := a.Realloc(block, oldSize, newSize, alignment, base);
      case Dup(src, data, base) => p := a.Memdup(src, |data|, base);
      case DupString(src, text, base) => p := a.Strdup(src, base, text);
      case Write(block, offset, value) =>
        p := ClientWrite(a, block, offset, value);
        PokeInBlock(s, block, offset, [value]);
      case Rewind(count) =>
        a.ResetKeepPages(count);
        ResetInv(s, count);
        p := 0;
      case RewindPercent(percent) =>
        a.ResetKeepPercentage(percent);
        ResetInv(s, KeepCount(|s.w.ar.pages|, percent));
        p := 0;
      case Elsewhere(mem) =>
        a.sys.Elsewhere(mem);
        ElsewhereInv(s, mem);
        p := 0;
    }
  }

  /** A client stores one byte into a block. */
  method ClientWrite(a: MulleArena, block: nat, offset: nat, value: Byte) returns (p: nat)
    requires PagesOk(a.Snapshot()) && BlocksOk(a.Abs()) && block in a.live && offset < a.live[block].size
    modifies a.sys
    ensures p == 0 && a.Abs() == Poke(old(a.Abs()), block + offset, [value])
  {
    BlockMapped(a.Abs(), block);
    assert Repeat(value, 1) == [value];
    a.sys.Memset(block + offset, value, 1);
    p := 0;
  }

  /** The object follows any run of raw calls that starts in its state. */
  method RawDrive(a: MulleArena, ops: seq<RawOp>, ghost states: seq<State>, ghost ps: seq<nat>) returns (qs: seq<nat>)
    requires IsRun(states, ops, ps) && a.Abs() == states[0] && RawInv(states[0])
    requires forall i: nat {:trigger ops[i]} :: i < |ops| ==> RawFits(states[i], ops[i])
    modifies a, a.sys
    ensures a.Abs() == states[|ops|] && qs == ps
  {
    qs := [];
    for i := 0 to |ops|
      invariant a.Abs() == states[i] && RawInv(states[i])
      invariant qs == ps[..i]
    {
      assert StepAt(states, ops, ps, i);
      var p := RawCall(a, ops[i]);
      qs := qs + [p];
    }
  }

  // ---------------------------------------------------------------- the allocator protocol

  predicate VFits(s: State, op: VOp) {
    match op
    case Calloc(n, size, _) => s.w.ar.current + s.w.abi.wordBytes + n * size < s.w.abi.Limit()
    case Reallocarray(_, n, size, _) => s.w.ar.current + s.w.abi.wordBytes + n * size < s.w.abi.Limit()
    case RewindPercent(percent) => |s.w.ar.pages| * Min(percent, 100) + 99 < s.w.abi.Limit()
    case _ => true
  }

  method VCall(a: MulleArena, op: VOp) returns (p: nat)
    requires VInv(a.Abs()) && VOpOk(a.Abs(), op) && VFits(a.Abs(), op)
    modifies a, a.sys
    ensures (a.Abs(), p) == VStep(old(a.Abs()), op)
    ensures VInv(a.Abs())
  {
    match op {
      case Calloc(n, size, base) => p := a.CallocV(n, size, base);
      case Reallocarray(block, n, size, base) => p := a.ReallocarrayV(block, n, size, base);
      case _ => p := VOther(a, op);
    }
  }

  /** The steps that ask for no memory. */
  method VOther(a: MulleArena, op: VOp) returns (p: nat)
    requires VInv(a.Abs()) && VOpOk(a.Abs(), op) && VFits(a.Abs(), op) && !op.Calloc? && !op.Reallocarray?
    modifies a, a.sys
    ensures (a.Abs(), p) == VStep(old(a.Abs()), op)
    ensures VInv(a.Abs())
  {
    ghost var s := a.Abs();
    p := 0;
    match op {
      case Free(block) => a.FreeV(block);
      case Write(block, offset, value) => p := ClientWrite(a, block, offset, value);
      case Rewind(count) => a.ResetKeepPages(count);
      case RewindPercent(percent) => a.ResetKeepPercentage(percent);
      case Elsewhere(mem) => a.sys.Elsewhere(mem);
    }
    assert VInv(a.Abs()) by {
      VStepInv(s, op);
    }
  }

  /** The object follows any run of protocol calls that starts in its state: any sizes, any resets, as long
      as every copy is a defined one. */
  method VDrive(a: MulleArena, ops: seq<VOp>, ghost states: seq<State>, ghost ps: seq<nat>) returns (qs: seq<nat>)
    requires IsVRun(states, ops, ps) && a.Abs() == states[0] && VInv(states[0])
    requires forall i: nat {:trigger ops[i]} :: i < |ops| ==> VFits(states[i], ops[i])
    modifies a, a.sys
    ensures a.Abs() == states[|ops|] && qs == ps
  {
    qs := [];
    for i := 0 to |ops|
      invariant a.Abs() == states[i] && VInv(states[i])
      invariant qs == ps[..i]
    {
      assert VCallAt(states, ops, ps, i) && CopyAt(states, ops, i);
      var p := VCall(a, ops[i]);
      qs := qs + [p];
    }
  }

  // ---------------------------------------------------------------- arenas on one machine

  ghost predicate TurnFits(s: State, turn: Turn) {
    match turn
    case RawTurn(_, op) => RawFits(s, op)
    case VTurn(_, op) => VFits(s, op)
  }

  method TakeTurn(a: MulleArena, turn: Turn, ghost raw: bool) returns (p: nat)
    requires Sound(a.Abs(), raw) && CallOk(a.Abs(), raw, turn) && TurnFits(a.Abs(), turn)
    modifies a, a.sys
    ensures (a.Abs(), p) == Called(old(a.Abs()), turn)
  {
    match turn {
      case RawTurn(_, op) => p := RawCall(a, op);
      case VTurn(_, op) => p := VCall(a, op);
    }
  }

  /** Different objects on one machine, in these states. */
  ghost predicate OnMachine(arenas: seq<MulleArena>, sys: Machine, ss: seq<State>)
    reads arenas, sys
  {
    && |arenas| == |ss|
    && (forall k: nat, l: nat :: k < l < |arenas| ==> arenas[k] != arenas[l])
    && (forall k: nat {:trigger arenas[k]} :: k < |arenas| ==> arenas[k].sys == sys && arenas[k].Abs() == ss[k])
  }

  /** One of the objects is called; the others see memory change. */
  method TurnOf(arenas: seq<MulleArena>, sys: Machine, turn: Turn, ghost raws: seq<bool>, ghost ss: seq<State>)
    returns (p: nat)
    requires Together(ss, raws) && TurnOk(ss, raws, turn) && OnMachine(arenas, sys, ss)
    requires TurnFits(ss[turn.who], turn)
    modifies arenas, sys
    ensures OnMachine(arenas, sys, Turned(ss, raws, turn).0) && p == Turned(ss, raws, turn).1
  {
    assert SoundAt(ss, raws, turn.who);
    p := TakeTurn(arenas[turn.who], turn, raws[turn.who]);
  }

  /** Any number of arena objects on one machine follow any interleaved run. */
  method SharedDrive(arenas: seq<MulleArena>, sys: Machine, turns: seq<Turn>, ghost raws: seq<bool>,
                     ghost runs: seq<seq<State>>, ghost ps: seq<nat>) returns (qs: seq<nat>)
    requires IsShared(runs, raws, turns, ps) && Together(runs[0], raws) && OnMachine(arenas, sys, runs[0])
    requires forall i: nat {:trigger turns[i]} :: i < |turns| && turns[i].who < |raws| ==>
      TurnFits(runs[i][turns[i].who], turns[i])
    modifies arenas, sys
    ensures OnMachine(arenas, sys, runs[|turns|]) && qs == ps
  {
    qs := [];
    for i := 0 to |turns|
      invariant OnMachine(arenas, sys, runs[i])
      invariant qs == ps[..i]
    {
      SharedTogether(runs, raws, turns, ps, i);
      assert SharedAt(runs, raws, turns, ps, i);
      var p := TurnOf(arenas, sys, turns[i], raws, runs[i]);
      qs := qs + [p];
    }
  }
}
