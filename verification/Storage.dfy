/** mulle_storage: nodes with stable addresses, and a stack of freed ones. */
module Storage {
  import opened Memory
  import opened Nodes
  import opened Pools

  class MulleStorage {
    const size: nat
    var structs: seq<Node>
    var freed: seq<Node>
    ghost var slots: seq<nat>

    /** The reserved slots and the numbers of the freed ones, oldest first. */
    ghost function Abs(): Pool
      reads this
    {
      Pool(|structs|, slots)
    }

    ghost predicate Valid()
      reads this, structs
    {
      && Distinct(structs)
      && (forall i: nat :: i < |structs| ==> |structs[i].data| == size)
      && PoolOk(Abs())
      && |slots| == |freed|
      && (forall i: nat :: i < |slots| ==> freed[i] == structs[slots[i]])
    }

    constructor (size: nat)
      ensures Valid() && Abs() == EMPTY && this.size == size && structs == []
    {
      this.size := size;
      structs := [];
      freed := [];
      slots := [];
    }

    /** Pop a freed node, or NULL. */
    method Pop() returns (p: Node?)
      requires Valid()
      modifies this`freed, this`slots
      ensures Valid()
      ensures old(freed) == [] ==> p == null && Abs() == old(Abs())
      ensures old(freed) != [] ==> (Abs(), structs[Take(old(Abs())).1]) == (Take(old(Abs())).0, p)
    {
      if |freed| == 0 {
        return null;
      }
      TakeIsNew(Abs());
      p := freed[|freed| - 1];
      freed := freed[..|freed| - 1];
      slots := slots[..|slots| - 1];
    }

    /** Append a fresh slot. */
    method Reserve() returns (p: Node)
      requires Valid()
      modifies this`structs
      ensures Valid() && fresh(p) && structs == old(structs) + [p]
    {
      p := new Node(size);
      structs := structs + [p];
    }

    method Malloc() returns (p: Node, ghost slot: nat)
      requires Valid()
      modifies this`structs, this`freed, this`slots
      ensures Valid() && (Abs(), slot) == Take(old(Abs()))
      ensures structs[..|old(structs)|] == old(structs) && p == structs[slot]
      ensures forall i: nat :: |old(structs)| <= i < |structs| ==> fresh(structs[i])
    {
      slot := Take(Abs()).1;
      TakeIsNew(Abs());
      var q := Pop();
      if q == null {
        q := Reserve();
      }
      p := q;
    }

    /** A zeroed node; no other node changes. */
    method Calloc() returns (p: Node, ghost slot: nat)
      requires Valid()
      modifies this`structs, this`freed, this`slots, structs
      ensures Valid() && (Abs(), slot) == Take(old(Abs()))
      ensures structs[..|old(structs)|] == old(structs) && p == structs[slot]
      ensures forall i: nat :: |old(structs)| <= i < |structs| ==> fresh(structs[i])
      ensures p.Image() == (Bits(0), 0, Repeat(0, size))
      ensures forall i: nat :: i < |old(structs)| && i != slot ==> structs[i].Image() == old(structs[i].Image())
    {
      ghost var before := structs;
      p, slot := Malloc();
      assert forall i: nat :: i < |before| ==> structs[i] == before[i];
      p.word := Bits(0);
      p.serial := 0;
      p.Memset(0);
    }

    /** A copy of `q`, which may be a live node, a foreign one, or a freed one unless it is the one reused
        for the copy; no other node changes. */
    method Copy(q: Node) returns (p: Node, ghost slot: nat)
      requires Valid() && |q.data| == size && (freed != [] ==> q != freed[|freed| - 1])
      modifies this`structs, this`freed, this`slots, structs
      ensures Valid() && (Abs(), slot) == Take(old(Abs()))
      ensures structs[..|old(structs)|] == old(structs) && p == structs[slot] && p != q
      ensures forall i: nat :: |old(structs)| <= i < |structs| ==> fresh(structs[i])
      ensures p.Image() == old(q.Image())
      ensures forall i: nat :: i < |old(structs)| && i != slot ==> structs[i].Image() == old(structs[i].Image())
    {
      ghost var before := structs;
      ghost var last := |freed| - 1;
      assert freed != [] ==> freed[last] == structs[slots[last]];
      p, slot := Malloc();
      assert forall i: nat :: i < |before| ==> structs[i] == before[i];
      p.word := q.word;
      p.serial := q.serial;
      p.data := q.data;
    }

    /** Give a live node back. */
    method Free(p: Node, ghost slot: nat)
      requires Valid() && slot in Live(Abs()) && structs[slot] == p
      modifies this`freed, this`slots
      ensures Valid() && Abs() == Give(old(Abs()), slot)
    {
      GiveFrees(Abs(), slot);
      freed := freed + [p];
      slots := slots + [slot];
    }

    method GetCount() returns (n: nat)
      requires Valid()
      ensures n == |Live(Abs())|
    {
      CountIsLive(Abs());
      n := |structs| - |freed|;
    }

    ghost function LiveNodes(): set<Node>
      reads this
    {
      NodesAt(structs, Live(Abs()))
    }

    /** Allocate and initialise, in terms of the live nodes. */
    method Acquire(number: nat) returns (n: Node)
      requires Valid()
      modifies this`structs, this`freed, this`slots, structs
      ensures Valid() && n !in old(LiveNodes()) && LiveNodes() == old(LiveNodes()) + {n}
      ensures n.Holds(NODE_HEADER + size, number) && n in structs
      ensures Abs() == Take(old(Abs())).0 && old(structs) <= structs
      ensures Take(old(Abs())).1 < |structs| && n == structs[Take(old(Abs())).1]
      ensures forall m :: m in structs ==> m in old(structs) || fresh(m)
      ensures forall m :: m in old(LiveNodes()) ==> m.Image() == old(m.Image())
    {
      ghost var before := Abs();
      ghost var listed := structs;
      TakeIsNew(before);
      ghost var slot;
      n, slot := Malloc();
      NodesAtGrows(listed, structs, Live(before), slot);
      assert forall i: nat :: i < |listed| ==> structs[i] == listed[i];
      n.Init(NODE_HEADER + size, number);
    }

    /** Free a live node, whatever its slot. */
    method Release(p: Node)
      requires Valid() && p in LiveNodes()
      modifies this`freed, this`slots
      ensures Valid() && LiveNodes() == old(LiveNodes()) - {p}
      ensures forall slot: nat ::
                slot in Live(old(Abs())) && slot < |structs| && structs[slot] == p ==> Abs() == Give(old(Abs()), slot)
    {
      ghost var slot :| slot in Live(Abs()) && slot < |structs| && structs[slot] == p;
      GiveFrees(Abs(), slot);
      NodesAtShrinks(structs, Live(Abs()), slot);
      Free(p, slot);
    }
  }
}
