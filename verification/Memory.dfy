/** Byte memory and the system allocator. Addresses are naturals; an address outside the map is
    not mapped. */
module Memory {
  import opened Words

  type Bytes = map<nat, Byte>

  /** A byte of memory; unmapped memory reads as zero, and no operation reads it. */
  function Peek(mem: Bytes, a: nat): Byte {
    if a in mem then mem[a] else 0
  }

  function Load(mem: Bytes, p: nat, n: nat): (s: seq<Byte>)
    ensures |s| == n && forall i: nat :: i < n ==> s[i] == Peek(mem, p + i)
  {
    seq<Byte>(n, (i: nat) => Peek(mem, p + i))
  }

  function Store(mem: Bytes, p: nat, s: seq<Byte>): (r: Bytes)
    ensures r.Keys == mem.Keys
  {
    map a | a in mem :: if p <= a < p + |s| then s[a - p] else mem[a]
  }

  function Repeat(b: Byte, n: nat): (s: seq<Byte>)
    ensures |s| == n
  {
    seq<Byte>(n, _ => b)
  }

  predicate Within(a: nat, p: nat, n: nat) {
    p <= a < p + n
  }

  function Range(p: nat, n: nat): set<nat> {
    set a: nat | p <= a < p + n && Within(a, p, n)
  }

  function AddPage(mem: Bytes, base: nat, n: nat): Bytes {
    mem + map a | a in Range(base, n) :: 0
  }

  function DropPage(mem: Bytes, base: nat, n: nat): Bytes {
    map a | a in mem && !(base <= a < base + n) :: mem[a]
  }

  ghost predicate Mapped(mem: Bytes, p: nat, n: nat) {
    forall a: nat :: p <= a < p + n ==> a in mem
  }

  ghost predicate Unmapped(mem: Bytes, p: nat, n: nat) {
    forall a: nat :: p <= a < p + n ==> a !in mem
  }

  predicate Apart(p: nat, n: nat, q: nat, m: nat) {
    p + n <= q || q + m <= p
  }

  /** The two memories hold the same bytes in [p, p+n). */
  ghost predicate Agree(m1: Bytes, m2: Bytes, p: nat, n: nat) {
    forall a: nat :: p <= a < p + n ==> Peek(m1, a) == Peek(m2, a)
  }

  lemma AgreeLoad(m1: Bytes, m2: Bytes, p: nat, n: nat)
    requires Agree(m1, m2, p, n)
    ensures Load(m1, p, n) == Load(m2, p, n)
  {
  }

  lemma LoadStore(mem: Bytes, p: nat, s: seq<Byte>)
    requires Mapped(mem, p, |s|)
    ensures Load(Store(mem, p, s), p, |s|) == s
  {
  }

  lemma StoreApart(mem: Bytes, p: nat, s: seq<Byte>, q: nat, n: nat)
    requires Apart(p, |s|, q, n)
    ensures Agree(Store(mem, p, s), mem, q, n)
    ensures Load(Store(mem, p, s), q, n) == Load(mem, q, n)
  {
    AgreeLoad(Store(mem, p, s), mem, q, n);
  }

  function Splice(s: seq<Byte>, k: nat, b: Byte): seq<Byte>
    requires k < |s|
  {
    s[..k] + [b] + s[k + 1..]
  }

  /** Storing into the middle of a range splices the range. */
  lemma LoadSplice(mem: Bytes, p: nat, n: nat, k: nat, b: Byte)
    requires k < n && Mapped(mem, p, n)
    ensures Load(Store(mem, p + k, [b]), p, n) == Splice(Load(mem, p, n), k, b)
  {
  }

  /** Changing one byte of a word changes its value in the same direction. */
  lemma {:induction false} SpliceOrder(s: seq<Byte>, k: nat, b: Byte)
    requires k < |s|
    ensures Decode(Splice(s, k, b)) > Decode(s) <==> b > s[k]
    ensures Decode(Splice(s, k, b)) == Decode(s) <==> b == s[k]
  {
    if k == 0 {
      assert Splice(s, k, b)[1..] == s[1..];
    } else {
      SpliceOrder(s[1..], k - 1, b);
      assert Splice(s, k, b)[1..] == Splice(s[1..], k - 1, b);
    }
  }

  /** The C library's memory and the default system allocator, shared by all that run on it. */
  class Machine {
    var bytes: Bytes

    constructor ()
      ensures bytes == map[]
    {
      bytes := map[];
    }

    /** calloc(1, n) answered with the address `base`. */
    method Calloc(base: nat, n: nat)
      requires n > 0 && base > 0 && Unmapped(bytes, base, n)
      modifies this
      ensures bytes == AddPage(old(bytes), base, n)
    {
      bytes := AddPage(bytes, base, n);
    }

    /** free of a page of n bytes that is outstanding. */
    method Free(base: nat, n: nat)
      requires n > 0 && Mapped(bytes, base, n)
      modifies this
      ensures bytes == DropPage(old(bytes), base, n)
    {
      bytes := DropPage(bytes, base, n);
    }

    /** Everybody else on the machine runs for a while. */
    method Elsewhere(mem: Bytes)
      modifies this
      ensures bytes == mem
    {
      bytes := mem;
    }

    method Memset(p: nat, b: Byte, n: nat)
      requires Mapped(bytes, p, n)
      modifies this
      ensures bytes == Store(old(bytes), p, Repeat(b, n))
    {
      for i := 0 to n
        invariant bytes == Store(old(bytes), p, Repeat(b, i))
      {
        bytes := bytes[p + i := b];
      }
    }

    /** Forward byte copy between ranges that do not overlap. */
    method Memcpy(dst: nat, src: nat, n: nat)
      requires Mapped(bytes, dst, n) && Mapped(bytes, src, n) && Apart(dst, n, src, n)
      modifies this
      ensures bytes == Store(old(bytes), dst, Load(old(bytes), src, n))
    {
      for i := 0 to n
        invariant bytes == Store(old(bytes), dst, Load(old(bytes), src, i))
      {
        bytes := bytes[dst + i := bytes[src + i]];
      }
    }

    /** The length of the NUL-terminated string at p. */
    method Strlen(p: nat, ghost bound: nat) returns (n: nat)
      requires Mapped(bytes, p, bound + 1) && bytes[p + bound] == 0
      ensures n <= bound && bytes[p + n] == 0
      ensures forall a: nat :: p <= a < p + n ==> Peek(bytes, a) != 0
    {
      n := 0;
      while bytes[p + n] != 0
        invariant n <= bound
        invariant forall a: nat :: p <= a < p + n ==> Peek(bytes, a) != 0
        decreases bound - n
      {
        n := n + 1;
      }
    }

    /** Store a size_t. */
    method StoreWord(p: nat, v: nat, n: nat)
      requires Mapped(bytes, p, n)
      modifies this
      ensures bytes == Store(old(bytes), p, Encode(v, n))
    {
      bytes := Store(bytes, p, Encode(v, n));
    }

    /** Load a size_t. */
    method LoadWord(p: nat, n: nat) returns (v: nat)
      requires Mapped(bytes, p, n)
      ensures v == Decode(Load(bytes, p, n))
    {
      v := Decode(Load(bytes, p, n));
    }
  }
}
