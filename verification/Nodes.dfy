/** The node memory of the pools, and the system's malloc and free for it. */
module Nodes {
  import opened Words
  import opened Memory

  const NODE_MAGIC: nat := 0x545235454C4C554D
  const NODE_HEADER: nat := 16

  /** The first word of a node holds payload while the node is live; a free list stores the link to
      the next dead node in the same place. */
  datatype Word = Bits(value: nat) | Link(next: Node?)

  type NodeImage = (Word, nat, seq<Byte>)

  class Node {
    var word: Word
    var serial: nat
    var data: seq<Byte>

    /** A fresh node holds anything. */
    constructor (n: nat)
      ensures |data| == n
    {
      word := *;
      serial := *;
      var b: Byte := *;
      data := Repeat(b, n);
    }

    ghost function Image(): NodeImage
      reads this
    {
      (word, serial, data)
    }

    method Memset(b: Byte)
      modifies this`data
      ensures data == Repeat(b, |old(data)|)
    {
      var n := |data|;
      for i := 0 to n
        invariant |data| == n && forall j: nat :: j < i ==> data[j] == b
      {
        data := Splice(data, i, b);
      }
    }

    /** Initialised with this serial number. */
    ghost predicate Holds(size: nat, number: nat)
      reads this
    {
      && NODE_HEADER + |data| == size
      && word == Bits(NODE_MAGIC) && serial == number
      && forall i: nat :: i < |data| ==> data[i] == number % 256
    }

    method Init(size: nat, number: nat)
      requires NODE_HEADER + |data| == size
      modifies this
      ensures Holds(size, number)
    {
      word := Bits(NODE_MAGIC);
      serial := number;
      Memset(number % 256);
    }

    /** Does the node still hold what Init stored? */
    method Check(size: nat, number: nat) returns (ok: bool)
      requires NODE_HEADER + |data| == size
      ensures ok <==> Holds(size, number)
    {
      var pattern := number % 256;
      if word != Bits(NODE_MAGIC) || serial != number {
        return false;
      }
      for i := 0 to size - NODE_HEADER
        invariant forall j: nat :: j < i ==> data[j] == pattern
      {
        if data[i] != pattern {
          return false;
        }
      }
      return true;
    }
  }

  /** malloc and free, with the set of outstanding nodes. */
  class System {
    var outstanding: set<Node>

    constructor ()
      ensures outstanding == {}
    {
      outstanding := {};
    }

    method Malloc(n: nat) returns (p: Node)
      modifies this
      ensures fresh(p) && |p.data| == n
      ensures outstanding == old(outstanding) + {p} && p !in old(outstanding)
    {
      p := new Node(n);
      outstanding := outstanding + {p};
    }

    method Free(p: Node)
      requires p in outstanding
      modifies this
      ensures outstanding == old(outstanding) - {p}
    {
      outstanding := outstanding - {p};
    }
  }

  /** What Init leaves in a node. */
  function InitImage(size: nat, number: nat): NodeImage
    requires size >= NODE_HEADER
  {
    (Bits(NODE_MAGIC), number, Repeat(number % 256, size - NODE_HEADER))
  }

  /** A node holds a serial number exactly if magic, number and every pattern byte are what Init stores:
      change any of them, and the check fails. */
  lemma HoldsIsImage(n: Node, size: nat, number: nat)
    requires size >= NODE_HEADER
    ensures n.Holds(size, number) <==> n.Image() == InitImage(size, number)
  {
    if n.Holds(size, number) {
      assert n.data == Repeat(number % 256, size - NODE_HEADER);
    }
  }

  /** The nodes at some slots. */
  ghost function NodesAt(nodes: seq<Node>, slots: set<nat>): set<Node> {
    set i | i in slots && i < |nodes| :: nodes[i]
  }

  ghost predicate Distinct(nodes: seq<Node>) {
    forall i: nat, j: nat :: i < j < |nodes| ==> nodes[i] != nodes[j]
  }

  /** Distinct entries: as many nodes as slots. */
  lemma {:induction false} NodesAtSize(nodes: seq<Node>, slots: set<nat>)
    requires Distinct(nodes) && forall i :: i in slots ==> i < |nodes|
    ensures |NodesAt(nodes, slots)| == |slots|
    decreases slots
  {
    if slots == {} {
      assert NodesAt(nodes, slots) == {};
    } else {
      var k :| k in slots;
      NodesAtSize(nodes, slots - {k});
      assert NodesAt(nodes, slots) == NodesAt(nodes, slots - {k}) + {nodes[k]};
    }
  }

  /** One more slot, one more node. */
  lemma NodesAtGrows(before: seq<Node>, nodes: seq<Node>, slots: set<nat>, slot: nat)
    requires Distinct(nodes) && |before| <= |nodes| && nodes[..|before|] == before && slot < |nodes|
    requires slot !in slots && forall i :: i in slots ==> i < |before|
    ensures NodesAt(nodes, slots + {slot}) == NodesAt(before, slots) + {nodes[slot]}
    ensures nodes[slot] !in NodesAt(before, slots)
  {
    assert forall i: nat :: i < |before| ==> nodes[i] == before[i];
  }

  lemma NodesAtShrinks(nodes: seq<Node>, slots: set<nat>, slot: nat)
    requires Distinct(nodes) && slot < |nodes| && slot in slots
    ensures NodesAt(nodes, slots - {slot}) == NodesAt(nodes, slots) - {nodes[slot]}
  {
  }
}
