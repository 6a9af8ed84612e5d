/** The pools agree: driven by the same operations, mulle_storage, the free list and mulle_indexedstorage name
    the same slot at every step. */
module Lockstep {
  import opened Nodes
  import opened Pools
  import opened Storage
  import opened IndexedStorage
  import opened FreeList
  import opened Bench

  /** These are the nodes at these slots. */
  ghost predicate Named(nodes: seq<Node>, table: seq<Node>, slots: seq<nat>) {
    && |nodes| == |slots|
    && forall i: nat {:trigger nodes[i]} :: i < |nodes| ==> slots[i] < |table| && nodes[i] == table[slots[i]]
  }

  /** One more node in front; the table may have grown meanwhile. */
  lemma NamedGrows(n: Node, rest: seq<Node>, before: seq<Node>, table: seq<Node>, slot: nat, slots: seq<nat>)
    requires slot < |before| && before[slot] == n && before <= table && Named(rest, table, slots)
    ensures Named([n] + rest, table, [slot] + slots)
  {
  }

  /** In a table without duplicates a node comes again exactly when its slot does. */
  lemma SameNodeSameSlot(nodes: seq<Node>, table: seq<Node>, slots: seq<nat>, i: nat, j: nat)
    requires Named(nodes, table, slots) && Distinct(table) && i < |nodes| && j < |nodes|
    ensures nodes[i] == nodes[j] <==> slots[i] == slots[j]
  {
    var x, y := nodes[i], nodes[j];
    assert slots[i] < slots[j] ==> table[slots[i]] != table[slots[j]];
    assert slots[j] < slots[i] ==> table[slots[j]] != table[slots[i]];
  }

  // ---------------------------------------------------------------- mulle_storage and the free list

  ghost predicate Separate(st: MulleStorage, fl: NodeFreeList)
    reads st, fl, fl.sys
  {
    Frame(Pooled(st)) !! Frame(Naive(fl))
  }

  ghost predicate InStep(st: MulleStorage, fl: NodeFreeList, p: Pool)
    reads Frame(Pooled(st)), Frame(Naive(fl)), st, fl, fl.sys
  {
    st.Valid() && fl.Valid() && st.Abs() == fl.Abs() == p
  }

  /** Allocate from the storage; the free list is not concerned. */
  method StorageAcquire(st: MulleStorage, fl: NodeFreeList) returns (a: Node)
    requires st.Valid() && fl.Valid() && Separate(st, fl)
    modifies Frame(Pooled(st))
    ensures st.Valid() && fl.Valid() && Separate(st, fl)
    ensures st.Abs() == Take(old(st.Abs())).0 && fl.Abs() == old(fl.Abs()) && fl.nodes == old(fl.nodes)
    ensures Take(old(st.Abs())).1 < |st.structs| && a == st.structs[Take(old(st.Abs())).1]
    ensures old(st.structs) <= st.structs
    ensures fresh(Frame(Pooled(st)) - old(Frame(Pooled(st)))) && Frame(Naive(fl)) == old(Frame(Naive(fl)))
  {
    TakeIsNew(st.Abs());
    ghost var slot;
    a, slot := st.Malloc();
  }

  /** Allocate from the free list; the storage is not concerned. */
  method ListAcquire(st: MulleStorage, fl: NodeFreeList) returns (b: Node)
    requires st.Valid() && fl.Valid() && Separate(st, fl)
    modifies Frame(Naive(fl))
    ensures st.Valid() && fl.Valid() && Separate(st, fl)
    ensures fl.Abs() == Take(old(fl.Abs())).0 && st.Abs() == old(st.Abs()) && st.structs == old(st.structs)
    ensures Take(old(fl.Abs())).1 < |fl.nodes| && b == fl.nodes[Take(old(fl.Abs())).1]
    ensures old(fl.nodes) <= fl.nodes
    ensures fresh(Frame(Naive(fl)) - old(Frame(Naive(fl)))) && Frame(Pooled(st)) == old(Frame(Pooled(st)))
  {
    TakeIsNew(fl.Abs());
    ghost var slot;
    b, slot := fl.Alloc(0);
  }

  /** Allocate from both pools: each answers its node of the slot the value model names. */
  method AcquireBoth(st: MulleStorage, fl: NodeFreeList, ghost p: Pool) returns (a: Node, b: Node)
    requires InStep(st, fl, p) && Separate(st, fl)
    modifies Frame(Pooled(st)), Frame(Naive(fl))
    ensures InStep(st, fl, Take(p).0) && Separate(st, fl)
    ensures Take(p).1 < |st.structs| == |fl.nodes|
    ensures a == st.structs[Take(p).1] && b == fl.nodes[Take(p).1]
    ensures old(st.structs) <= st.structs && old(fl.nodes) <= fl.nodes
    ensures fresh(Frame(Pooled(st)) - old(Frame(Pooled(st)))) && fresh(Frame(Naive(fl)) - old(Frame(Naive(fl))))
  {
    a := StorageAcquire(st, fl);
    b := ListAcquire(st, fl);
  }

  /** Free the node of a slot in both pools. */
  method ReleaseBoth(st: MulleStorage, fl: NodeFreeList, slot: nat, ghost p: Pool) returns (a: Node, b: Node)
    requires InStep(st, fl, p) && Separate(st, fl) && slot in Live(p)
    modifies Frame(Pooled(st)), Frame(Naive(fl))
    ensures InStep(st, fl, Give(p, slot)) && Separate(st, fl)
    ensures slot < |st.structs| == |fl.nodes|
    ensures a == st.structs[slot] && b == fl.nodes[slot]
    ensures st.structs == old(st.structs) && fl.nodes == old(fl.nodes)
    ensures Frame(Pooled(st)) == old(Frame(Pooled(st))) && Frame(Naive(fl)) == old(Frame(Naive(fl)))
  {
    a, b := st.structs[slot], fl.blocks[slot];
    st.Free(a, slot);
    fl.Free(b, slot);
  }

  /** One operation on both pools. */
  method DriveStep(st: MulleStorage, fl: NodeFreeList, op: PoolOp, ghost p: Pool) returns (a: Node, b: Node)
    requires InStep(st, fl, p) && Separate(st, fl) && OpOk(p, op)
    modifies Frame(Pooled(st)), Frame(Naive(fl))
    ensures InStep(st, fl, Step(p, op).0) && Separate(st, fl)
    ensures Step(p, op).1 < |st.structs| == |fl.nodes|
    ensures a == st.structs[Step(p, op).1] && b == fl.nodes[Step(p, op).1]
    ensures old(st.structs) <= st.structs && old(fl.nodes) <= fl.nodes
    ensures fresh(Frame(Pooled(st)) - old(Frame(Pooled(st)))) && fresh(Frame(Naive(fl)) - old(Frame(Naive(fl))))
  {
    match op {
      case Acquire => a, b := AcquireBoth(st, fl, p);
      case Release(slot) => a, b := ReleaseBoth(st, fl, slot, p);
    }
  }

  /** Drive mulle_storage and the free list with the same operations. The nodes the one hands out and takes
      back are its nodes of the slots the value model names, step by step; so are those of the other;
      and at the end both hold the same pool. */
  method DriveBoth(st: MulleStorage, fl: NodeFreeList, ops: seq<PoolOp>, ghost p: Pool)
    returns (nodesA: seq<Node>, nodesB: seq<Node>)
    requires InStep(st, fl, p) && Separate(st, fl) && RunOk(p, ops)
    modifies Frame(Pooled(st)), Frame(Naive(fl))
    ensures InStep(st, fl, Run(p, ops))
    ensures Named(nodesA, st.structs, Trace(p, ops)) && Named(nodesB, fl.nodes, Trace(p, ops))
    ensures old(st.structs) <= st.structs && old(fl.nodes) <= fl.nodes
    decreases |ops|
  {
    if |ops| == 0 {
      return [], [];
    }
    var a, b := DriveStep(st, fl, ops[0], p);
    ghost var (q, slot) := Step(p, ops[0]);
    ghost var tableA, tableB := st.structs, fl.nodes;
    var restA, restB := DriveBoth(st, fl, ops[1..], q);
    NamedGrows(a, restA, tableA, st.structs, slot, Trace(q, ops[1..]));
    NamedGrows(b, restB, tableB, fl.nodes, slot, Trace(q, ops[1..]));
    nodesA, nodesB := [a] + restA, [b] + restB;
  }

  /** The two pools reuse alike: the one hands out or takes back the same node at two steps exactly when
      the other does. */
  method ReuseAlike(st: MulleStorage, fl: NodeFreeList, ops: seq<PoolOp>, ghost p: Pool)
    returns (nodesA: seq<Node>, nodesB: seq<Node>)
    requires InStep(st, fl, p) && Separate(st, fl) && RunOk(p, ops)
    modifies Frame(Pooled(st)), Frame(Naive(fl))
    ensures |nodesA| == |nodesB| == |ops|
    ensures forall i: nat, j: nat :: i < |ops| && j < |ops| ==> (nodesA[i] == nodesA[j] <==> nodesB[i] == nodesB[j])
  {
    nodesA, nodesB := DriveBoth(st, fl, ops, p);
    forall i: nat, j: nat | i < |ops| && j < |ops| ensures nodesA[i] == nodesA[j] <==> nodesB[i] == nodesB[j] {
      SameNodeSameSlot(nodesA, st.structs, Trace(p, ops), i, j);
      SameNodeSameSlot(nodesB, fl.nodes, Trace(p, ops), i, j);
    }
  }

  // ---------------------------------------------------------------- mulle_storage and mulle_indexedstorage

  ghost predicate Paired<T>(st: MulleStorage, ix: MulleIndexedStorage<T>, p: Pool)
    reads Frame(Pooled(st)), st, ix
  {
    st.Valid() && ix.Valid() && st.Abs() == ix.Abs() == p
  }

  /** Allocate from both; `junk` is what an element appended holds. */
  method IndexedAcquire<T>(st: MulleStorage, ix: MulleIndexedStorage<T>, junk: T, ghost p: Pool)
    returns (a: Node, index: nat)
    requires Paired(st, ix, p) && Take(p).0.reserved < UINT_LIMIT
    modifies Frame(Pooled(st)), ix
    ensures Paired(st, ix, Take(p).0)
    ensures index == Take(p).1 < |st.structs| && a == st.structs[index]
    ensures old(st.structs) <= st.structs
    ensures fresh(Frame(Pooled(st)) - old(Frame(Pooled(st))))
  {
    TakeIsNew(p);
    ghost var slot;
    a, slot := st.Malloc();
    index := ix.Alloc(junk);
  }

  /** One operation on both. */
  method IndexedStep<T>(st: MulleStorage, ix: MulleIndexedStorage<T>, op: PoolOp, junk: T, ghost p: Pool)
    returns (a: Node, index: nat)
    requires Paired(st, ix, p) && OpOk(p, op) && Step(p, op).0.reserved < UINT_LIMIT
    modifies Frame(Pooled(st)), ix
    ensures Paired(st, ix, Step(p, op).0)
    ensures index == Step(p, op).1 < |st.structs| && a == st.structs[index]
    ensures old(st.structs) <= st.structs
    ensures fresh(Frame(Pooled(st)) - old(Frame(Pooled(st))))
  {
    match op {
      case Acquire => a, index := IndexedAcquire(st, ix, junk, p);
      case Release(slot) =>
        a, index := st.structs[slot], slot;
        st.Free(a, slot);
        ix.Free(slot);
    }
  }

  /** Drive mulle_storage and mulle_indexedstorage with the same operations, any number of them, as long as the
      index type can number the slots reserved: the indexes the one answers are the slots of the nodes the
      other answers. */
  method DriveIndexed<T>(st: MulleStorage, ix: MulleIndexedStorage<T>, ops: seq<PoolOp>, junk: T, ghost p: Pool)
    returns (nodes: seq<Node>, indexes: seq<nat>)
    requires Paired(st, ix, p) && RunOk(p, ops) && Run(p, ops).reserved < UINT_LIMIT
    modifies Frame(Pooled(st)), ix
    ensures Paired(st, ix, Run(p, ops))
    ensures indexes == Trace(p, ops) && Named(nodes, st.structs, indexes)
    ensures old(st.structs) <= st.structs
    decreases |ops|
  {
    if |ops| == 0 {
      return [], [];
    }
    ReservedGrows(Step(p, ops[0]).0, ops[1..]);
    var a, index := IndexedStep(st, ix, ops[0], junk, p);
    ghost var table := st.structs;
    var rest, others := DriveIndexed(st, ix, ops[1..], junk, Step(p, ops[0]).0);
    NamedGrows(a, rest, table, st.structs, index, others);
    nodes, indexes := [a] + rest, [index] + others;
  }

  /** From empty pools the bound is one on the number of slots live at a time. */
  method DriveIndexedFromEmpty<T>(st: MulleStorage, ix: MulleIndexedStorage<T>, ops: seq<PoolOp>, junk: T)
    returns (nodes: seq<Node>, indexes: seq<nat>)
    requires Paired(st, ix, EMPTY) && RunOk(EMPTY, ops) && Peak(EMPTY, ops) < UINT_LIMIT
    modifies Frame(Pooled(st)), ix
    ensures Paired(st, ix, Run(EMPTY, ops))
    ensures indexes == Trace(EMPTY, ops) && Named(nodes, st.structs, indexes)
  {
    ReservedIsPeak(ops);
    nodes, indexes := DriveIndexed(st, ix, ops, junk, EMPTY);
  }
}
