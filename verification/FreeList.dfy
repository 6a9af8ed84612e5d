/** The naive free list of the benchmark: freed nodes are linked through their own first word. */
module FreeList {
  import opened Nodes
  import opened Pools

  class NodeFreeList {
    const sys: System
    const size: nat
    var freeHead: Node?
    var blocks: array<Node?>
    var nblocks: nat
    var outstanding: nat
    ghost var nodes: seq<Node>
    ghost var slots: seq<nat>

    ghost function Abs(): Pool
      reads this
    {
      Pool(|nodes|, slots)
    }

    /** The node freed as the i-th oldest. */
    ghost predicate Linked(i: nat)
      requires i < |slots| && PoolOk(Abs())
      reads this, nodes
    {
      nodes[slots[i]].word == Link(if i == 0 then null else nodes[slots[i - 1]])
    }

    /** Every block is listed once; the list from the head runs through the freed nodes, the one
        freed last first, and ends. */
    ghost predicate Valid()
      reads this, blocks, nodes, sys
    {
      && PoolOk(Abs()) && size >= NODE_HEADER
      && nblocks == |nodes| <= blocks.Length
      && (forall i: nat :: i < |nodes| ==> blocks[i] == nodes[i])
      && Distinct(nodes)
      && (forall i: nat :: i < |nodes| ==> NODE_HEADER + |nodes[i].data| == size)
      && freeHead == (if slots == [] then null else nodes[slots[|slots| - 1]])
      && (forall i: nat {:trigger Linked(i)} :: i < |slots| ==> Linked(i))
      && outstanding + |slots| == |nodes|
      && sys.outstanding == set n | n in nodes
    }

    constructor (size: nat, sys: System)
      requires size >= NODE_HEADER && sys.outstanding == {}
      ensures Valid() && Abs() == EMPTY && this.size == size && this.sys == sys && fresh(blocks)
    {
      this.size := size;
      this.sys := sys;
      freeHead := null;
      blocks := new Node?[0];
      nblocks := 0;
      outstanding := 0;
      nodes, slots := [], [];
    }

    /** Make room for one more entry, doubling the array when it is full. */
    method Grow()
      requires Valid()
      modifies this`blocks
      ensures Valid() && nblocks < blocks.Length && (blocks == old(blocks) || fresh(blocks))
      ensures blocks.Length == if old(nblocks == blocks.Length)
                               then (if old(blocks.Length) > 0 then old(blocks.Length) * 2 else 1024)
                               else old(blocks.Length)
    {
      if nblocks == blocks.Length {
        var cap := if blocks.Length > 0 then blocks.Length * 2 else 1024;
        var full := blocks;
        var grown := new Node?[cap](_ => null);
        for i := 0 to nblocks
          invariant forall j: nat :: j < i ==> grown[j] == full[j]
          invariant unchanged(full) && unchanged(this)
        {
          grown[i] := full[i];
        }
        blocks := grown;
        assert forall i: nat {:trigger Linked(i)} :: i < |slots| ==> old(Linked(i)) ==> Linked(i);
      }
    }

    /** Take the head off the list. */
    method Unlink() returns (n: Node)
      requires Valid() && freeHead != null
      modifies this`freeHead, this`slots, this`outstanding
      ensures Valid() && Abs() == Take(old(Abs())).0 && n == nodes[Take(old(Abs())).1]
    {
      TakeIsNew(Abs());
      ghost var top := |slots| - 1;
      assert Linked(top);
      n := freeHead;
      freeHead := n.word.next;
      slots := slots[..top];
      outstanding := outstanding + 1;
      forall i: nat | i < |slots| ensures Linked(i) {
        assert old(Linked(i));
      }
    }

    /** Get a node from the system and record it for the teardown. */
    method Append() returns (n: Node)
      requires Valid() && slots == []
      modifies this, blocks, sys
      ensures Valid() && fresh(n) && nodes == old(nodes) + [n] && slots == []
      ensures blocks == old(blocks) || fresh(blocks)
    {
      Grow();
      n := sys.Malloc(size - NODE_HEADER);
      blocks[nblocks] := n;
      nblocks := nblocks + 1;
      nodes := nodes + [n];
      outstanding := outstanding + 1;
    }

    method Alloc(number: nat) returns (n: Node, ghost slot: nat)
      requires Valid()
      modifies this, blocks, sys, nodes
      ensures Valid() && (Abs(), slot) == Take(old(Abs()))
      ensures nodes[..|old(nodes)|] == old(nodes) && n == nodes[slot]
      ensures blocks == old(blocks) || fresh(blocks)
      ensures forall i: nat :: |old(nodes)| <= i < |nodes| ==> fresh(nodes[i])
      ensures n.Holds(size, number)
      ensures forall i: nat :: i < |old(nodes)| && i != slot ==> nodes[i].Image() == old(nodes[i].Image())
    {
      slot := Take(Abs()).1;
      TakeIsNew(Abs());
      if freeHead != null {
        n := Unlink();
      } else {
        n := Append();
      }
      Reinit(n, slot, number);
    }

    /** Initialising a live node leaves the list of dead ones alone. */
    method Reinit(n: Node, ghost slot: nat, number: nat)
      requires Valid() && slot in Live(Abs()) && nodes[slot] == n
      modifies n
      ensures Valid() && n.Holds(size, number)
    {
      n.Init(size, number);
      forall i: nat | i < |slots| ensures Linked(i) {
        assert old(Linked(i));
      }
    }

    method Free(p: Node, ghost slot: nat)
      requires Valid() && slot in Live(Abs()) && nodes[slot] == p
      modifies this`freeHead, this`outstanding, this`slots, p`word
      ensures Valid() && Abs() == Give(old(Abs()), slot)
    {
      GiveFrees(Abs(), slot);
      CountIsLive(Abs());
      p.word := Link(freeHead);
      freeHead := p;
      outstanding := outstanding - 1;
      slots := slots + [slot];
      forall i: nat | i < |slots| ensures Linked(i) {
        assert i < |slots| - 1 ==> old(Linked(i));
      }
    }

    method LiveCount() returns (n: nat)
      requires Valid()
      ensures n == |Live(Abs())|
    {
      CountIsLive(Abs());
      n := outstanding;
    }

    ghost function LiveNodes(): set<Node>
      reads this
    {
      NodesAt(nodes, Live(Abs()))
    }

    /** The nodes met by following at most `fuel` links. */
    ghost function Walk(n: Node?, fuel: nat): seq<Node>
      reads this, nodes, n, set m | m in nodes :: m
      decreases fuel
    {
      if n == null || fuel == 0 then []
      else if n.word.Link? && (n.word.next == null || n.word.next in nodes)
      then [n] + Walk(n.word.next, fuel - 1)
      else [n]
    }

    /** The freed nodes from the k-th oldest down. */
    ghost function FreedFrom(k: nat): (r: seq<Node>)
      requires k <= |slots| && PoolOk(Abs())
      reads this
      ensures |r| == k
    {
      if k == 0 then [] else [nodes[slots[k - 1]]] + FreedFrom(k - 1)
    }

    lemma WalkFrom(k: nat, fuel: nat)
      requires Valid() && k <= |slots| && k <= fuel
      ensures Walk(if k == 0 then null else nodes[slots[k - 1]], fuel) == FreedFrom(k)
      decreases k
    {
      if k > 0 {
        assert Linked(k - 1);
        WalkFrom(k - 1, fuel - 1);
      }
    }

    /** The list is acyclic and complete: however many links one is ready to follow, the walk from the
        head meets exactly the freed nodes, the one freed last first, and ends. */
    lemma WalkIsFreed(fuel: nat)
      requires Valid() && fuel >= |slots|
      ensures Walk(freeHead, fuel) == FreedFrom(|slots|)
    {
      WalkFrom(|slots|, fuel);
    }

    lemma SlotOf(p: Node) returns (slot: nat)
      requires p in LiveNodes()
      ensures slot in Live(Abs()) && slot < |nodes| && nodes[slot] == p
    {
      var i :| i in Live(Abs()) && i < |nodes| && nodes[i] == p;
      slot := i;
    }

    /** Free a live node, whatever its slot. */
    method Release(p: Node)
      requires Valid() && p in LiveNodes()
      modifies this`freeHead, this`outstanding, this`slots, p`word
      ensures Valid() && LiveNodes() == old(LiveNodes()) - {p}
      ensures Count(Abs()) == Count(old(Abs())) - 1
      ensures forall slot: nat ::
                slot in Live(old(Abs())) && slot < |nodes| && nodes[slot] == p ==> Abs() == Give(old(Abs()), slot)
    {
      ghost var slot := SlotOf(p);
      ghost var before := Abs();
      GiveFrees(before, slot);
      NodesAtShrinks(nodes, Live(before), slot);
      Free(p, slot);
    }

    /** Allocate, in terms of the live nodes. */
    method Acquire(number: nat) returns (n: Node)
      requires Valid()
      modifies this, blocks, sys, nodes
      ensures Valid() && n !in old(LiveNodes()) && LiveNodes() == old(LiveNodes()) + {n}
      ensures n.Holds(size, number) && n in nodes
      ensures Abs() == Take(old(Abs())).0 && old(nodes) <= nodes
      ensures Take(old(Abs())).1 < |nodes| && n == nodes[Take(old(Abs())).1]
      ensures blocks == old(blocks) || fresh(blocks)
      ensures forall m :: m in nodes ==> m in old(nodes) || fresh(m)
      ensures forall m :: m in old(LiveNodes()) ==> m.Image() == old(m.Image())
    {
      ghost var before := Abs();
      ghost var listed := nodes;
      TakeIsNew(before);
      ghost var slot;
      n, slot := Alloc(number);
      NodesAtGrows(listed, nodes, Live(before), slot);
      assert forall i: nat :: i < |listed| ==> nodes[i] == listed[i];
    }

    /** Give every block back to the system, each once. */
    method FreeBlocks()
      requires Valid()
      modifies this`blocks, sys
      ensures sys.outstanding == {} && blocks.Length == 0
    {
      var mine := blocks;
      for i := 0 to nblocks
        invariant blocks == mine && unchanged(mine) && unchanged(this)
        invariant sys.outstanding == set n | n in nodes[i..]
      {
        assert mine[i] == nodes[i];
        assert nodes[i..] == [nodes[i]] + nodes[i + 1..];
        assert forall j: nat :: i < j < |nodes| ==> nodes[j] != nodes[i];
        sys.Free(mine[i]);
      }
      blocks := new Node?[0];
    }

    /** Free the nodes still live, then all blocks. */
    method Teardown(live: seq<Node>)
      requires Valid()
      requires forall i: nat :: i < |live| ==> live[i] in LiveNodes()
      requires forall i: nat, j: nat :: i < j < |live| ==> live[i] != live[j]
      modifies this, sys, nodes
      ensures sys.outstanding == {} && blocks.Length == 0
      ensures Count(Abs()) == Count(old(Abs())) - |live|
    {
      for i := 0 to |live|
        invariant Valid() && nodes == old(nodes)
        invariant forall j: nat :: i <= j < |live| ==> live[j] in LiveNodes()
        invariant Count(Abs()) == Count(old(Abs())) - i
      {
        Release(live[i]);
      }
      FreeBlocks();
    }
  }
}
