/** The benchmark's allocators behind one operations table, and the random workload that drives them. */
module Bench {
  import opened Nodes
  import opened Pools
  import opened Storage
  import opened FreeList
  import opened Workload

  /** malloc and free with call counters. */
  class MallocCounter {
    const sys: System
    var allocCalls: nat
    var freeCalls: nat

    ghost predicate Valid()
      reads this, sys
    {
      allocCalls == freeCalls + |sys.outstanding|
    }

    constructor (sys: System)
      requires sys.outstanding == {}
      ensures Valid() && this.sys == sys
    {
      this.sys := sys;
      allocCalls, freeCalls := 0, 0;
    }

    method Acquire(size: nat, number: nat) returns (n: Node)
      requires Valid() && size >= NODE_HEADER
      modifies this, sys
      ensures Valid() && fresh(n) && sys.outstanding == old(sys.outstanding) + {n}
      ensures allocCalls == old(allocCalls) + 1 && freeCalls == old(freeCalls)
      ensures n.Holds(size, number)
    {
      n := sys.Malloc(size - NODE_HEADER);
      allocCalls := allocCalls + 1;
      n.Init(size, number);
    }

    method Release(p: Node)
      requires Valid() && p in sys.outstanding
      modifies this, sys
      ensures Valid() && sys.outstanding == old(sys.outstanding) - {p}
      ensures allocCalls == old(allocCalls) && freeCalls == old(freeCalls) + 1
    {
      freeCalls := freeCalls + 1;
      sys.Free(p);
    }
  }

  datatype AllocOps = Direct(m: MallocCounter) | Naive(fl: NodeFreeList) | Pooled(st: MulleStorage)

  ghost function Roots(o: AllocOps): set<object> {
    match o
    case Direct(m) => {m, m.sys}
    case Naive(fl) => {fl, fl.sys}
    case Pooled(st) => {st}
  }

  ghost function Objects(nodes: seq<Node>): set<object> {
    set n: object | n in nodes
  }

  ghost function Frame(o: AllocOps): set<object>
    reads Roots(o)
  {
    match o
    case Direct(m) => {m, m.sys} + m.sys.outstanding
    case Naive(fl) => {fl, fl.sys, fl.blocks} + Objects(fl.nodes)
    case Pooled(st) => {st} + Objects(st.structs)
  }

  ghost predicate Ready(o: AllocOps, size: nat)
    reads Roots(o), Frame(o)
  {
    size >= NODE_HEADER &&
    match o
    case Direct(m) => m.Valid() && forall n :: n in m.sys.outstanding ==> NODE_HEADER + |n.data| == size
    case Naive(fl) => fl.Valid() && fl.size == size
    case Pooled(st) => st.Valid() && NODE_HEADER + st.size == size
  }

  /** The live nodes of an allocator. */
  ghost function LiveOf(o: AllocOps): set<Node>
    reads Roots(o)
  {
    match o
    case Direct(m) => m.sys.outstanding
    case Naive(fl) => fl.LiveNodes()
    case Pooled(st) => st.LiveNodes()
  }

  /** What an allocator knows: its call counters, or its pool and the table of its nodes. */
  datatype Ledger = Counters(allocs: nat, frees: nat) | Slots(pool: Pool, table: seq<Node>)

  ghost function LedgerOf(o: AllocOps): Ledger
    reads Roots(o)
  {
    match o
    case Direct(m) => Counters(m.allocCalls, m.freeCalls)
    case Naive(fl) => Slots(fl.Abs(), fl.nodes)
    case Pooled(st) => Slots(st.Abs(), st.structs)
  }

  /** The node of the slot the pool takes, in a table that only grows. */
  ghost predicate Allocated(l: Ledger, r: Ledger, n: Node) {
    match l
    case Counters(allocs, frees) => r == Counters(allocs + 1, frees)
    case Slots(pool, table) =>
      && r.Slots? && r.pool == Take(pool).0 && table <= r.table
      && Take(pool).1 < |r.table| && n == r.table[Take(pool).1]
  }

  ghost predicate Freed(l: Ledger, r: Ledger, n: Node) {
    match l
    case Counters(allocs, frees) => r == Counters(allocs, frees + 1)
    case Slots(pool, table) =>
      && r.Slots? && r.table == table
      && forall slot: nat :: slot in Live(pool) && slot < |table| && table[slot] == n ==> r.pool == Give(pool, slot)
  }

  // ---------------------------------------------------------------- the operations table

  /** Allocation answers a node that was not live, initialised, and leaves live nodes as they were; the
      ledger shows it. */
  method OpsAlloc(o: AllocOps, size: nat, number: nat) returns (n: Node)
    requires Ready(o, size)
    modifies Frame(o)
    ensures Ready(o, size) && fresh(Frame(o) - old(Frame(o)))
    ensures n !in old(LiveOf(o)) && LiveOf(o) == old(LiveOf(o)) + {n} && n in Frame(o)
    ensures n.Holds(size, number)
    ensures forall m :: m in old(LiveOf(o)) ==> m.Image() == old(m.Image())
    ensures Allocated(old(LedgerOf(o)), LedgerOf(o), n)
  {
    match o {
      case Direct(m) => n := m.Acquire(size, number);
      case Naive(fl) => n := fl.Acquire(number);
      case Pooled(st) => n := st.Acquire(number);
    }
  }

  /** Freeing a live node leaves the other live nodes as they were; the ledger shows it. */
  method OpsFree(o: AllocOps, p: Node, size: nat)
    requires Ready(o, size) && p in LiveOf(o)
    modifies Frame(o)
    ensures Ready(o, size) && Frame(o) <= old(Frame(o))
    ensures LiveOf(o) == old(LiveOf(o)) - {p}
    ensures forall m :: m in LiveOf(o) ==> m.Image() == old(m.Image())
    ensures Freed(old(LedgerOf(o)), LedgerOf(o), p)
  {
    match o {
      case Direct(m) => m.Release(p);
      case Naive(fl) => fl.Release(p);
      case Pooled(st) => st.Release(p);
    }
  }

  method OpsLiveCount(o: AllocOps, size: nat) returns (n: nat)
    requires Ready(o, size)
    ensures n == |LiveOf(o)|
  {
    match o {
      case Direct(m) =>
        n := m.allocCalls - m.freeCalls;
      case Naive(fl) =>
        n := fl.LiveCount();
        NodesAtSize(fl.nodes, Live(fl.Abs()));
      case Pooled(st) =>
        n := st.GetCount();
        NodesAtSize(st.structs, Live(st.Abs()));
    }
  }

  // ---------------------------------------------------------------- what is tracked

  /** The local arrays of the workload: node and serial number, MAX_LIVE entries each. */
  datatype Tracker = Tracker(live: seq<Node?>, serials: seq<nat>)

  /** The first `count` entries are all the live nodes, each once. */
  ghost predicate Lists(t: Tracker, nodes: set<Node>, count: nat) {
    && |t.live| == |t.serials| == MAX_LIVE && count <= MAX_LIVE
    && |nodes| == count
    && (forall i: nat :: i < count ==> t.live[i] != null && t.live[i] in nodes)
    && (forall i: nat, j: nat :: i < j < count ==> t.live[i] != t.live[j])
  }

  /** ... with the serial numbers they hold. */
  ghost predicate Tracks(t: Tracker, nodes: set<Node>, size: nat, count: nat)
    reads nodes
  {
    && Lists(t, nodes, count)
    && forall i: nat :: i < count ==> t.live[i] in nodes && t.live[i].Holds(size, t.serials[i])
  }

  function Added(t: Tracker, count: nat, n: Node, serial: nat): Tracker
    requires count < |t.live| == |t.serials|
  {
    Tracker(t.live[count := n], t.serials[count := serial])
  }

  /** Fill place k with the last entry. */
  function SwapRemoved(t: Tracker, count: nat, k: nat): Tracker
    requires k < count <= |t.live| == |t.serials|
  {
    Tracker(t.live[k := t.live[count - 1]], t.serials[k := t.serials[count - 1]])
  }

  lemma SwapRemovedLists(t: Tracker, nodes: set<Node>, count: nat, k: nat)
    requires Lists(t, nodes, count) && k < count
    ensures Lists(SwapRemoved(t, count, k), nodes - {t.live[k]}, count - 1)
    ensures forall i: nat :: i < count && i != k ==> t.live[i] != t.live[k]
  {
  }

  // ---------------------------------------------------------------- what was done

  /** What the workload sees between two acts: the allocator's ledger and its own arrays. */
  datatype Moment = Moment(ledger: Ledger, frame: set<object>, tracker: Tracker, count: nat)

  /** A node was allocated and tracked, or the one at a place was freed and its place filled with the last one. */
  ghost predicate Acted(m: Moment, r: Moment, act: Act) {
    var t, u := m.tracker, r.tracker;
    && |t.live| == |t.serials| == |u.live| == MAX_LIVE
    && match act
       case Grow(serial) =>
         && m.count < MAX_LIVE && r.count == m.count + 1 && u.live[m.count] != null
         && u == Added(t, m.count, u.live[m.count], serial) && Allocated(m.ledger, r.ledger, u.live[m.count])
       case Shrink(k) =>
         && k < m.count <= MAX_LIVE && r.count == m.count - 1 && t.live[k] != null
         && (forall i: nat, j: nat :: i < j < m.count ==> t.live[i] != t.live[j])
         && u == SwapRemoved(t, m.count, k) && Freed(m.ledger, r.ledger, t.live[k])
  }

  /** The account is right: the calls made are counted, or the pool is the one accounted for and the tracked nodes are
      those of the slots. */
  ghost predicate Booked(m: Moment, b: Books) {
    && |b.places| == m.count <= |m.tracker.live|
    && match m.ledger
       case Counters(allocs, frees) => allocs == b.allocs && frees == b.frees
       case Slots(pool, table) =>
         && pool == b.pool && PoolOk(pool)
         && forall i: nat {:trigger b.places[i]} :: i < m.count ==>
              b.places[i] in Live(pool) && b.places[i] < |table| && m.tracker.live[i] == table[b.places[i]]
  }

  lemma BookedAct(m: Moment, r: Moment, act: Act, b: Books)
    requires Booked(m, b) && Acted(m, r, act)
    ensures (act.Shrink? ==> act.place < |b.places|) && Booked(r, Enter(b, act))
  {
    if m.ledger.Slots? {
      if act.Grow? {
        TakeIsNew(b.pool);
      } else {
        assert b.places[act.place] in Live(m.ledger.pool);
        GiveFrees(b.pool, b.places[act.place]);
      }
    }
  }

  /** The account at the start of a pass. */
  ghost function Opening(l: Ledger): Books {
    match l
    case Counters(allocs, frees) => Books(EMPTY, [], allocs, frees)
    case Slots(pool, _) => Books(pool, [], 0, 0)
  }

  /** The ledger after these acts: malloc's counters count them, a pool is left as a legal run of its operations leaves
      it. */
  ghost predicate Performed(l: Ledger, r: Ledger, log: seq<Act>) {
    ActsOk(0, log) &&
    match l
    case Counters(allocs, frees) => r == Counters(allocs + Grown(log), frees + Shrunk(log))
    case Slots(pool, _) =>
      var ops := PoolOps(Opening(l), log);
      RunOk(pool, ops) && r.Slots? && r.pool == Run(pool, ops)
  }

  /** The books, entered act by act since the pass began with this ledger, are right. */
  ghost predicate Settled(l: Ledger, log: seq<Act>, m: Moment) {
    ActsOk(0, log) && Booked(m, EnterAll(Opening(l), log)) && m.ledger.Slots? == l.Slots?
  }

  lemma SettledOn(l: Ledger, log: seq<Act>, m: Moment, act: Act, r: Moment)
    requires Settled(l, log, m) && Acted(m, r, act)
    ensures Settled(l, log + [act], r)
  {
    BookedAct(m, r, act, EnterAll(Opening(l), log));
    OneMoreAct(Opening(l), log, act);
  }

  lemma BooksClose(l: Ledger, log: seq<Act>, r: Moment)
    requires Settled(l, log, r) && (l.Slots? ==> PoolOk(l.pool))
    ensures Performed(l, r.ledger, log)
  {
    BooksArePoolRun(Opening(l), log);
  }

  // ---------------------------------------------------------------- the random workload

  /** The allocator is sound at this moment, and what is tracked is what is live. */
  ghost predicate At(o: AllocOps, size: nat, t: Tracker, count: nat, m: Moment)
    reads Roots(o), Frame(o)
  {
    && Ready(o, size) && Tracks(t, LiveOf(o), size, count)
    && m == Moment(LedgerOf(o), Frame(o), t, count)
  }

  /** Allocate a node and track it. */
  method Add(o: AllocOps, size: nat, t: Tracker, count: nat, serial: nat, ghost m: Moment)
    returns (u: Tracker, ghost r: Moment)
    requires At(o, size, t, count, m) && count < MAX_LIVE
    modifies m.frame
    ensures At(o, size, u, count + 1, r) && Acted(m, r, Grow(serial))
    ensures forall x :: x in r.frame ==> x in m.frame || fresh(x)
  {
    ghost var before := LiveOf(o);
    var n := OpsAlloc(o, size, serial);
    u := Added(t, count, n, serial);
    forall i: nat | i < count ensures u.live[i] in before && u.live[i].Holds(size, u.serials[i]) {
      assert t.live[i].Image() == old(t.live[i].Image());
    }
    r := Moment(LedgerOf(o), Frame(o), u, count + 1);
  }

  /** Check a tracked node, fill its place with the last one, and free it. Whatever the node holds, the answer is that
      of the check. */
  method CheckAndFree(o: AllocOps, size: nat, t: Tracker, count: nat, k: nat) returns (ok: bool, u: Tracker)
    requires Ready(o, size) && k < count <= |t.live| == |t.serials| && t.live[k] in LiveOf(o)
    modifies Frame(o)
    ensures Ready(o, size) && Frame(o) <= old(Frame(o))
    ensures ok <==> old(t.live[k].Holds(size, t.serials[k]))
    ensures u == SwapRemoved(t, count, k) && LiveOf(o) == old(LiveOf(o)) - {t.live[k]}
    ensures forall m :: m in LiveOf(o) ==> m.Image() == old(m.Image())
    ensures Freed(old(LedgerOf(o)), LedgerOf(o), t.live[k])
  {
    var p := t.live[k];
    ok := p.Check(size, t.serials[k]);
    u := SwapRemoved(t, count, k);
    OpsFree(o, p, size);
  }

  /** While tracked nodes hold their numbers the check succeeds, and the others stay tracked. */
  method Remove(o: AllocOps, size: nat, t: Tracker, count: nat, k: nat, ghost m: Moment)
    returns (ok: bool, u: Tracker, ghost r: Moment)
    requires At(o, size, t, count, m) && k < count
    modifies m.frame
    ensures ok && At(o, size, u, count - 1, r) && r.frame <= m.frame && Acted(m, r, Shrink(k))
  {
    SwapRemovedLists(t, LiveOf(o), count, k);
    ok, u := CheckAndFree(o, size, t, count, k);
    forall i: nat | i < count - 1 ensures u.live[i] in LiveOf(o) && u.live[i].Holds(size, u.serials[i]) {
      var j := if i == k then count - 1 else i;
      assert t.live[j] in LiveOf(o);
      assert t.live[j].Image() == old(t.live[j].Image());
    }
    r := Moment(LedgerOf(o), Frame(o), u, count - 1);
  }

  /** One act. */
  method Perform(o: AllocOps, size: nat, t: Tracker, count: nat, act: Act, ghost m: Moment)
    returns (ok: bool, u: Tracker, ghost r: Moment)
    requires At(o, size, t, count, m)
    requires match act case Grow(_) => count < MAX_LIVE case Shrink(k) => k < count
    modifies m.frame
    ensures ok && At(o, size, u, if act.Grow? then count + 1 else count - 1, r) && Acted(m, r, act)
    ensures forall x :: x in r.frame ==> x in m.frame || fresh(x)
  {
    match act {
      case Grow(serial) =>
        ok := true;
        u, r := Add(o, size, t, count, serial, m);
      case Shrink(k) =>
        ok, u, r := Remove(o, size, t, count, k, m);
    }
  }

  /** One turn: toss a coin where there is a choice, then allocate, or draw a place. */
  method Turn(o: AllocOps, size: nat, t: Tracker, c: Clock, rng: nat -> nat, ghost m: Moment)
    returns (ok: bool, u: Tracker, act: Act, d: Clock, ghost r: Moment)
    requires At(o, size, t, c.count, m)
    modifies m.frame
    ensures ok && At(o, size, u, d.count, r) && Acted(m, r, act)
    ensures forall x :: x in r.frame ==> x in m.frame || fresh(x)
    ensures act == ActAt(c, rng) && d == Tick(c, rng)
  {
    var draws := c.draws;
    var grow := c.count == 0;
    if !grow && c.count < MAX_LIVE {
      grow := rng(draws) % 2 == 1;
      draws := draws + 1;
    }
    if grow {
      act, d := Grow(c.serial), Clock(c.count + 1, (c.serial + 1) % SERIAL_LIMIT, draws);
    } else {
      act, d := Shrink(rng(draws) % c.count), Clock(c.count - 1, c.serial, draws + 1);
    }
    assert act == ActAt(c, rng) && d == Tick(c, rng);
    ok, u, r := Perform(o, size, t, c.count, act, m);
  }

  /** `n` turns more; `log` is what was done. */
  method Churn(o: AllocOps, size: nat, n: nat, t: Tracker, c: Clock, rng: nat -> nat, ghost l: Ledger, ghost m: Moment)
    returns (passed: bool, u: Tracker, d: Clock, log: seq<Act>, ghost r: Moment)
    requires At(o, size, t, c.count, m) && Settled(l, [], m)
    modifies m.frame
    ensures passed && At(o, size, u, d.count, r) && Settled(l, log, r)
    ensures forall x :: x in r.frame ==> x in m.frame || fresh(x)
    ensures log == Turns(n, c, rng) && d == After(n, c, rng)
  {
    passed, u, d, log, r := true, t, c, [], m;
    for i := 0 to n
      invariant passed && At(o, size, u, d.count, r)
      invariant Settled(l, log, r)
      invariant forall x :: x in r.frame ==> x in m.frame || fresh(x)
      invariant log == Turns(i, c, rng) && d == After(i, c, rng)
    {
      OneMoreTurn(i, c, rng);
      ghost var s := r;
      var ok, act;
      ok, u, act, d, r := Turn(o, size, u, d, rng, s);
      SettledOn(l, log, s, act, r);
      passed, log := passed && ok, log + [act];
    }
  }

  /** Free what is left, the last entry first; `log` is what was done. */
  method Drain(o: AllocOps, size: nat, t: Tracker, count: nat, done: seq<Act>, ghost l: Ledger, ghost m: Moment)
    returns (passed: bool, log: seq<Act>, ghost r: Moment)
    requires At(o, size, t, count, m) && Settled(l, done, m)
    modifies m.frame
    ensures passed && Ready(o, size) && LiveOf(o) == {} && r.frame <= m.frame
    ensures log == done + Draining(count)
    ensures Settled(l, log, r) && r.ledger == LedgerOf(o) && r.frame == Frame(o)
  {
    var u := t;
    var left: nat := count;
    passed, log, r := true, done, m;
    while left > 0
      invariant passed && left <= count && At(o, size, u, left, r)
      invariant r.frame <= m.frame && Settled(l, log, r)
      invariant log + Draining(left) == done + Draining(count)
    {
      DrainOne(log, left);
      var ok;
      ghost var s := r;
      ok, u, r := Remove(o, size, u, left, left - 1, s);
      left := left - 1;
      SettledOn(l, log, s, Shrink(left), r);
      passed, log := passed && ok, log + [Shrink(left)];
    }
    assert log == done + Draining(count);
  }

  /** Free what is left, and see that nothing is live. */
  method Finish(o: AllocOps, size: nat, t: Tracker, count: nat, done: seq<Act>, ghost l: Ledger, ghost m: Moment)
    returns (passed: bool, log: seq<Act>, ghost r: Moment)
    requires At(o, size, t, count, m) && Settled(l, done, m)
    modifies m.frame
    ensures passed && Ready(o, size) && LiveOf(o) == {} && r.frame <= m.frame
    ensures log == done + Draining(count)
    ensures Settled(l, log, r) && r.ledger == LedgerOf(o) && r.frame == Frame(o)
  {
    passed, log, r := Drain(o, size, t, count, done, l, m);
    var left := OpsLiveCount(o, size);
    passed := passed && left == 0;
  }

  lemma DrainOne(acts: seq<Act>, left: nat)
    requires left > 0
    ensures acts + Draining(left) == (acts + [Shrink(left - 1)]) + Draining(left - 1)
  {
  }

  /** Random frees and allocations, whatever the generator answers: no check ever fails, no node is freed twice, and at
      the end nothing is live. What is done is the schedule of `n` turns and the drain after them, act by act. */
  method RandomPass(o: AllocOps, size: nat, n: nat, rng: nat -> nat) returns (passed: bool, log: seq<Act>)
    requires Ready(o, size) && LiveOf(o) == {}
    modifies Frame(o)
    ensures passed && Ready(o, size) && LiveOf(o) == {}
    ensures forall x :: x in Frame(o) ==> x in old(Frame(o)) || fresh(x)
    ensures log == Pass(n, rng) && Performed(old(LedgerOf(o)), LedgerOf(o), log)
  {
    var t := Tracker(seq(MAX_LIVE, _ => null), seq<nat>(MAX_LIVE, _ => 0));
    ghost var l, f := LedgerOf(o), Frame(o);
    var c, ok;
    ghost var r;
    passed, t, c, log, r := Churn(o, size, n, t, START, rng, l, Moment(l, f, t, 0));
    ghost var s := r;
    ok, log, r := Finish(o, size, t, c.count, log, l, s);
    passed := passed && ok;
    BooksClose(l, log, r);
  }
}
