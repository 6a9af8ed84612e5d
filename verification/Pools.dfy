/** The fixed-size pools as values: how many slots were reserved, and the stack of freed ones. */
module Pools {
  import opened Words

  datatype Pool = Pool(reserved: nat, freed: seq<nat>)

  const EMPTY := Pool(0, [])

  /** Reuse the slot freed last, or else reserve the next one. */
  function Take(p: Pool): (Pool, nat) {
    if p.freed != [] then (p.(freed := p.freed[..|p.freed| - 1]), p.freed[|p.freed| - 1])
    else (p.(reserved := p.reserved + 1), p.reserved)
  }

  function Give(p: Pool, slot: nat): Pool {
    p.(freed := p.freed + [slot])
  }

  /** Freed entries are distinct reserved slots. */
  ghost predicate PoolOk(p: Pool) {
    && (forall i: nat :: i < |p.freed| ==> p.freed[i] < p.reserved)
    && (forall i: nat, j: nat :: i < j < |p.freed| ==> p.freed[i] != p.freed[j])
  }

  function Live(p: Pool): set<nat> {
    set i: nat | i < p.reserved && i !in p.freed
  }

  function Count(p: Pool): int {
    p.reserved - |p.freed|
  }

  // ---------------------------------------------------------------- one step

  /** A slot taken was not live, is live afterwards, and nothing else changes. */
  lemma TakeIsNew(p: Pool)
    requires PoolOk(p)
    ensures var (q, slot) := Take(p);
      && PoolOk(q) && slot !in Live(p) && Live(q) == Live(p) + {slot} && slot < q.reserved
  {
    var (q, slot) := Take(p);
    if p.freed != [] {
      assert p.freed == q.freed + [slot];
      assert slot !in q.freed;
    }
  }

  lemma GiveFrees(p: Pool, slot: nat)
    requires PoolOk(p) && slot in Live(p)
    ensures PoolOk(Give(p, slot)) && Live(Give(p, slot)) == Live(p) - {slot}
  {
  }

  /** The slot freed last is the slot taken next, and the pool is as before. */
  lemma GiveThenTake(p: Pool, slot: nat)
    ensures Take(Give(p, slot)) == (p, slot)
  {
    assert Give(p, slot).freed[..|p.freed|] == p.freed;
  }

  function Below(n: nat): (r: set<nat>)
    ensures |r| == n && forall i: nat :: i in r <==> i < n
  {
    if n == 0 then {} else Below(n - 1) + {n - 1}
  }

  function Freed(p: Pool): set<nat> {
    set i | i in p.freed
  }

  /** Live and freed slots partition the reserved ones, and the count is the number of live ones. */
  ghost predicate Partitioned(p: Pool) {
    && Live(p) !! Freed(p)
    && Live(p) + Freed(p) == Below(p.reserved)
    && Count(p) == |Live(p)|
  }

  /** The count is the number of live slots. */
  lemma {:induction false} CountIsLive(p: Pool)
    requires PoolOk(p)
    ensures Count(p) == |Live(p)|
    decreases |p.freed|
  {
    if p.freed == [] {
      assert Live(p) == Below(p.reserved);
    } else {
      var (q, slot) := Take(p);
      TakeIsNew(p);
      CountIsLive(q);
    }
  }

  // ---------------------------------------------------------------- runs

  datatype PoolOp = Acquire | Release(slot: nat)

  ghost predicate OpOk(p: Pool, op: PoolOp) {
    op.Release? ==> op.slot in Live(p)
  }

  function Step(p: Pool, op: PoolOp): (Pool, nat) {
    match op
    case Acquire => Take(p)
    case Release(slot) => (Give(p, slot), slot)
  }

  ghost predicate RunOk(p: Pool, ops: seq<PoolOp>)
    decreases |ops|
  {
    ops != [] ==> OpOk(p, ops[0]) && RunOk(Step(p, ops[0]).0, ops[1..])
  }

  function Run(p: Pool, ops: seq<PoolOp>): Pool
    decreases |ops|
  {
    if ops == [] then p else Run(Step(p, ops[0]).0, ops[1..])
  }

  /** The slots named along a run: taken or freed. */
  function Trace(p: Pool, ops: seq<PoolOp>): (r: seq<nat>)
    ensures |r| == |ops|
    decreases |ops|
  {
    if ops == [] then [] else [Step(p, ops[0]).1] + Trace(Step(p, ops[0]).0, ops[1..])
  }

  /** The largest live count over all prefixes of a run. */
  ghost function Peak(p: Pool, ops: seq<PoolOp>): nat
    decreases |ops|
  {
    if ops == [] then |Live(p)| else Max(|Live(p)|, Peak(Step(p, ops[0]).0, ops[1..]))
  }

  lemma StepOk(p: Pool, op: PoolOp)
    requires PoolOk(p) && OpOk(p, op)
    ensures PoolOk(Step(p, op).0)
  {
    match op
    case Acquire => TakeIsNew(p);
    case Release(slot) => GiveFrees(p, slot);
  }

  /** After any run freed entries are distinct, and live and freed slots partition the reserved ones. */
  lemma {:induction false} RunPartitions(p: Pool, ops: seq<PoolOp>)
    requires PoolOk(p) && RunOk(p, ops)
    ensures PoolOk(Run(p, ops)) && Partitioned(Run(p, ops))
    decreases |ops|
  {
    if ops == [] {
      CountIsLive(p);
    } else {
      StepOk(p, ops[0]);
      RunPartitions(Step(p, ops[0]).0, ops[1..]);
    }
  }

  /** A run reserves as many slots as its peak live count needs, and no more. */
  lemma {:induction false} ReservedIsPeakFrom(p: Pool, ops: seq<PoolOp>)
    requires PoolOk(p) && RunOk(p, ops)
    ensures Run(p, ops).reserved == Max(p.reserved, Peak(p, ops))
    decreases |ops|
  {
    CountIsLive(p);
    if ops != [] {
      var q := Step(p, ops[0]).0;
      StepOk(p, ops[0]);
      CountIsLive(q);
      ReservedIsPeakFrom(q, ops[1..]);
      PeakAtLeast(q, ops[1..]);
    }
  }

  lemma PeakAtLeast(p: Pool, ops: seq<PoolOp>)
    ensures Peak(p, ops) >= |Live(p)|
  {
  }

  /** The high-water mark: from an empty pool the slots ever reserved are the peak live count. */
  lemma ReservedIsPeak(ops: seq<PoolOp>)
    requires RunOk(EMPTY, ops)
    ensures Run(EMPTY, ops).reserved == Peak(EMPTY, ops)
  {
    ReservedIsPeakFrom(EMPTY, ops);
    PeakAtLeast(EMPTY, ops);
  }

  lemma {:induction false} ReservedGrows(p: Pool, ops: seq<PoolOp>)
    ensures p.reserved <= Run(p, ops).reserved
    decreases |ops|
  {
    if ops != [] {
      ReservedGrows(Step(p, ops[0]).0, ops[1..]);
    }
  }

  lemma {:induction false} TraceBelowReserved(p: Pool, ops: seq<PoolOp>, i: nat)
    requires PoolOk(p) && RunOk(p, ops) && i < |ops|
    ensures Trace(p, ops)[i] < Run(p, ops).reserved
    decreases |ops|
  {
    var q := Step(p, ops[0]).0;
    StepOk(p, ops[0]);
    if i == 0 {
      ReservedGrows(q, ops[1..]);
      if ops[0].Acquire? {
        TakeIsNew(p);
      }
    } else {
      TraceBelowReserved(q, ops[1..], i - 1);
    }
  }

  /** Every slot handed out along a run is below the peak live count of the run. */
  lemma TraceBelowPeak(ops: seq<PoolOp>, i: nat)
    requires RunOk(EMPTY, ops) && i < |ops|
    ensures Trace(EMPTY, ops)[i] < Peak(EMPTY, ops)
  {
    TraceBelowReserved(EMPTY, ops, i);
    ReservedIsPeak(ops);
  }
}
