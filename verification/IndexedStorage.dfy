/** mulle_indexedstorage: nodes named by index; a freed index i is stacked as the pointer value i + 1. */
module IndexedStorage {
  import opened Pools

  /** unsigned int is 32 bits. */
  const UINT_LIMIT: nat := 0x1_0000_0000

  /** The pointer value stacked for an index: the increment is done on unsigned int. */
  function Encoded(index: nat): nat {
    (index + 1) % UINT_LIMIT
  }

  /** The index taken back from a stacked pointer value. */
  function Decoded(pointer: nat): nat
    requires pointer > 0
  {
    (pointer - 1) % UINT_LIMIT
  }

  /** The encoding is NULL for the last unsigned int, which a pop would take for an empty stack; every
      other index comes back unchanged. */
  lemma EncodingIsExact(index: nat)
    requires index < UINT_LIMIT
    ensures Encoded(index) != 0 <==> index < UINT_LIMIT - 1
    ensures index < UINT_LIMIT - 1 ==> Decoded(Encoded(index)) == index
  {
    if index + 1 < UINT_LIMIT {
      assert Encoded(index) == index + 1;
    }
  }

  class MulleIndexedStorage<T> {
    var structs: seq<T>
    var freed: seq<nat>

    /** The reserved slots and the freed indexes, oldest first. */
    ghost function Abs(): Pool
      reads this
    {
      Pool(|structs|, seq(|freed|, i requires 0 <= i < |freed| reads this =>
                                     if freed[i] > 0 then freed[i] - 1 else 0))
    }

    ghost predicate Valid()
      reads this
    {
      && |structs| < UINT_LIMIT
      && PoolOk(Abs())
      && forall i: nat :: i < |freed| ==> 0 < freed[i]
    }

    /** The partial map from live indexes to values. */
    ghost function Values(): map<nat, T>
      reads this
    {
      map i | i in Live(Abs()) :: structs[i]
    }

    constructor ()
      ensures Valid() && Abs() == EMPTY && Values() == map[]
    {
      structs := [];
      freed := [];
    }

    /** Reuse the index freed last, or append an element whose initial value is `junk`. */
    method Alloc(junk: T) returns (index: nat)
      requires Valid() && (freed != [] || |structs| < UINT_LIMIT - 1)
      modifies this
      ensures Valid() && (Abs(), index) == Take(old(Abs()))
      ensures index !in old(Values()) && Values().Keys == old(Values().Keys) + {index}
      ensures forall i :: i in old(Values()) ==> Values()[i] == old(Values())[i]
    {
      TakeIsNew(Abs());
      ghost var before := Abs();
      if |freed| > 0 {
        var pointer := freed[|freed| - 1];
        freed := freed[..|freed| - 1];
        index := (pointer - 1) % UINT_LIMIT;
        assert pointer - 1 == before.freed[|freed|];
        assert Abs().freed == before.freed[..|freed|];
        return;
      }
      index := |structs|;
      structs := structs + [junk];
      assert Abs().freed == before.freed;
    }

    method Free(index: nat)
      requires Valid() && index in Live(Abs())
      modifies this`freed
      ensures Valid() && Abs() == Give(old(Abs()), index)
      ensures Values() == old(Values()) - {index}
    {
      GiveFrees(Abs(), index);
      ghost var before := Abs();
      freed := freed + [(index + 1) % UINT_LIMIT];
      assert Abs().freed == before.freed + [index];
    }

    method Get(index: nat) returns (value: T)
      requires Valid() && index in Live(Abs())
      ensures value == Values()[index]
    {
      value := structs[index];
    }

    /** A client store through the address returned by get. */
    method Put(index: nat, value: T)
      requires Valid() && index in Live(Abs())
      modifies this`structs
      ensures Valid() && Abs() == old(Abs())
      ensures Values() == old(Values())[index := value]
    {
      structs := structs[index := value];
      assert Abs() == old(Abs());
    }

    method GetCount() returns (n: nat)
      requires Valid()
      ensures n == |Values()|
    {
      CountIsLive(Abs());
      assert Values().Keys == Live(Abs());
      n := |structs| - |freed|;
    }
  }
}
