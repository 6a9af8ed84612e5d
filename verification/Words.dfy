/** Machine words: bitwise AND and complement on naturals, the alignment mask, and the
    byte representation of a size_t. */
module Words {

  type Byte = x: int | 0 <= x < 256

  function Max(x: nat, y: nat): nat { if x < y then y else x }

  function Min(x: nat, y: nat): nat { if x < y then x else y }

  function Pow2(n: nat): (r: nat)
    ensures r > 0
  {
    if n == 0 then 1 else 2 * Pow2(n - 1)
  }

  ghost predicate IsPowerOfTwo(a: nat) {
    exists k: nat :: a == Pow2(k)
  }

  /** Bitwise AND, bit by bit. */
  function And(x: nat, y: nat): nat {
    if x == 0 || y == 0 then 0
    else (if x % 2 == 1 && y % 2 == 1 then 1 else 0) + 2 * And(x / 2, y / 2)
  }

  /** Bitwise complement of a w-bit word. */
  function Complement(x: nat, w: nat): nat
    requires x < Pow2(w)
  {
    Pow2(w) - 1 - x
  }

  /** `p` is a multiple of `a`; AlignedIsDivisible relates it to the remainder. */
  predicate Aligned(p: nat, a: nat)
    requires a > 0
    decreases p
  {
    p == 0 || (a <= p && Aligned(p - a, a))
  }

  /** The least multiple of `a` that is not below `p`; AlignUpIsLeast says so. */
  function AlignUp(p: nat, a: nat): (r: nat)
    requires a > 0
    ensures p <= r < p + a
    decreases p
  {
    if p == 0 then 0 else if p <= a then a else a + AlignUp(p - a, a)
  }

  /** The pointer alignment as computed on w-bit words: add the mask, wrap, clear the mask. */
  function AlignWord(p: nat, a: nat, w: nat): nat
    requires 0 < a <= Pow2(w)
  {
    And((p + (a - 1)) % Pow2(w), Complement(a - 1, w))
  }

  // ---------------------------------------------------------------- multiples

  lemma ScaleMonotone(i: nat, j: nat, a: nat)
    ensures i <= j ==> i * a <= j * a
  {
  }

  lemma DivModUnique(x: nat, q: nat, a: nat, r: nat)
    requires a > 0 && x == q * a + r && r < a
    ensures x / a == q && x % a == r
  {
    var d := x / a - q;
    assert x == (x / a) * a + x % a;
    assert d * a == r - x % a;
    assert d >= 1 ==> d * a >= a;
    assert d <= -1 ==> d * a <= -1 * a;
  }

  lemma ModShift(x: nat, a: nat)
    requires 0 < a <= x
    ensures (x - a) % a == x % a
  {
    var q := (x - a) / a;
    assert x - a == q * a + (x - a) % a;
    assert x == (q + 1) * a + (x - a) % a;
    DivModUnique(x, q + 1, a, (x - a) % a);
  }

  lemma {:induction false} AlignedIsDivisible(p: nat, a: nat)
    requires a > 0
    ensures Aligned(p, a) <==> p % a == 0
    decreases p
  {
    if p >= a {
      ModShift(p, a);
      AlignedIsDivisible(p - a, a);
    } else {
      DivModUnique(p, 0, a, p);
    }
  }

  lemma {:induction false} MultipleOf(q: nat, a: nat)
    requires a > 0
    ensures Aligned(q * a, a)
  {
    if q > 0 {
      MultipleOf(q - 1, a);
      assert q * a == (q - 1) * a + a;
    }
  }

  /** Two multiples of `a` are a whole `a` apart. */
  lemma {:induction false} MultiplesApart(x: nat, y: nat, a: nat)
    requires a > 0 && Aligned(x, a) && Aligned(y, a) && x < y
    ensures x + a <= y
    decreases x
  {
    if x > 0 {
      MultiplesApart(x - a, y - a, a);
    }
  }

  lemma {:induction false} AddMultiples(x: nat, y: nat, a: nat)
    requires a > 0 && Aligned(x, a)
    ensures Aligned(x + y, a) <==> Aligned(y, a)
    decreases x
  {
    if x > 0 {
      AddMultiples(x - a, y, a);
    }
  }

  lemma {:induction false} AlignedToOne(p: nat)
    ensures Aligned(p, 1)
  {
    if p > 0 {
      AlignedToOne(p - 1);
    }
  }

  /** A multiple of a multiple. */
  lemma {:induction false} MultipleOfMultiple(x: nat, a: nat, b: nat)
    requires a > 0 && b > 0 && Aligned(x, a) && Aligned(a, b)
    ensures Aligned(x, b)
    decreases x
  {
    if x > 0 {
      MultipleOfMultiple(x - a, a, b);
      AddMultiples(a, x - a, b);
    }
  }

  lemma NextMultiple(x: nat, a: nat)
    requires a > 0 && Aligned(x, a)
    ensures Aligned(x + a, a)
  {
  }

  lemma {:induction false} AlignUpAligned(p: nat, a: nat)
    requires a > 0
    ensures Aligned(AlignUp(p, a), a)
    decreases p
  {
    if p > a {
      AlignUpAligned(p - a, a);
    }
  }

  /** AlignUp is a multiple of the alignment, and every multiple at or above p is at or above it. */
  lemma {:induction false} AlignUpIsLeast(p: nat, a: nat, m: nat)
    requires a > 0 && Aligned(m, a) && m >= p
    ensures Aligned(AlignUp(p, a), a) && p <= AlignUp(p, a) <= m
    decreases p
  {
    if p > a {
      AlignUpIsLeast(p - a, a, m - a);
    }
  }

  lemma RoundingIsAlignUp(p: nat, a: nat, m: nat)
    requires a > 0 && Aligned(m, a) && p <= m < p + a
    ensures AlignUp(p, a) == m
  {
    AlignUpIsLeast(p, a, m);
    if AlignUp(p, a) < m {
      MultiplesApart(AlignUp(p, a), m, a);
    }
  }

  /** `r` is the first multiple of `a` from `p` on. */
  ghost predicate RoundsTo(r: nat, p: nat, a: nat)
    requires a > 0
  {
    Aligned(r, a) && p <= r < p + a
  }

  lemma AlignUpRounds(p: nat, a: nat, r: nat)
    requires a > 0
    ensures RoundsTo(r, p, a) <==> r == AlignUp(p, a)
  {
    AlignUpAligned(p, a);
    if RoundsTo(r, p, a) {
      RoundingIsAlignUp(p, a, r);
    }
  }

  lemma {:induction false} AlignUpPadding(n: nat, a: nat)
    requires a > 0
    ensures AlignUp(n, a) - n == if n % a == 0 then 0 else a - n % a
    decreases n
  {
    if n > a {
      ModShift(n, a);
      AlignUpPadding(n - a, a);
    } else if n < a {
      DivModUnique(n, 0, a, n);
    } else {
      DivModUnique(n, 1, a, 0);
    }
  }

  /** How much AlignUp adds depends only on the offset from a multiple. */
  lemma AlignUpOffset(base: nat, n: nat, a: nat)
    requires a > 0 && Aligned(base, a)
    ensures AlignUp(base + n, a) == base + AlignUp(n, a)
  {
    AlignUpAligned(n, a);
    AddMultiples(base, AlignUp(n, a), a);
    RoundingIsAlignUp(base + n, a, base + AlignUp(n, a));
  }

  // ---------------------------------------------------------------- the mask

  lemma {:induction false} PowAdd(i: nat, j: nat)
    ensures Pow2(i + j) == Pow2(i) * Pow2(j)
  {
    if i > 0 {
      PowAdd(i - 1, j);
      assert Pow2(i + j) == 2 * Pow2(i - 1 + j);
    }
  }

  lemma {:induction false} PowMonotone(i: nat, j: nat)
    ensures i <= j ==> Pow2(i) <= Pow2(j)
  {
    if i < j {
      PowMonotone(i, j - 1);
    }
  }

  lemma {:induction false} AndSelf(x: nat)
    ensures And(x, x) == x
  {
    if x > 0 {
      AndSelf(x / 2);
    }
  }

  lemma {:induction false} AndAllOnes(x: nat, w: nat)
    requires x < Pow2(w)
    ensures And(x, Pow2(w) - 1) == x
  {
    if x > 0 {
      assert (Pow2(w) - 1) / 2 == Pow2(w - 1) - 1;
      AndAllOnes(x / 2, w - 1);
    }
  }

  /** `x` without its low k bits. */
  function ClearLow(x: nat, k: nat): nat {
    if k == 0 then x else 2 * ClearLow(x / 2, k - 1)
  }

  lemma {:induction false} ClearLowIsMultiple(x: nat, k: nat) returns (q: nat)
    ensures ClearLow(x, k) == q * Pow2(k) <= x < q * Pow2(k) + Pow2(k)
  {
    if k == 0 {
      q := x;
    } else {
      q := ClearLowIsMultiple(x / 2, k - 1);
      assert q * Pow2(k) == 2 * (q * Pow2(k - 1));
    }
  }

  /** ANDing with the complement of a mask of k ones clears the low k bits. */
  lemma {:induction false} MaskClears(x: nat, k: nat, w: nat)
    requires k <= w && x < Pow2(w)
    ensures Pow2(k) <= Pow2(w)
    ensures And(x, Pow2(w) - Pow2(k)) == ClearLow(x, k)
  {
    PowMonotone(k, w);
    if k == 0 {
      AndAllOnes(x, w);
    } else {
      MaskClears(x / 2, k - 1, w - 1);
      var m: nat := Pow2(w) - Pow2(k);
      var h: nat := Pow2(w - 1) - Pow2(k - 1);
      assert m == 2 * h;
      AndEven(x, h);
    }
  }

  lemma AndEven(x: nat, h: nat)
    ensures And(x, 2 * h) == 2 * And(x / 2, h)
  {
  }

  lemma WordOfLimit(k: nat, w: nat)
    requires Pow2(k) <= Pow2(w)
    ensures k <= w && Aligned(Pow2(w), Pow2(k))
  {
    PowMonotone(w + 1, k);
    PowAdd(w - k, k);
    MultipleOf(Pow2(w - k), Pow2(k));
  }

  /** The smaller of two powers of two divides the larger. */
  lemma PowersNest(a: nat, b: nat)
    requires IsPowerOfTwo(a) && IsPowerOfTwo(b) && b <= a
    ensures Aligned(a, b)
  {
    var w: nat :| a == Pow2(w);
    var k: nat :| b == Pow2(k);
    WordOfLimit(k, w);
  }

  /** The mask form computes AlignUp, modulo the word size, for every pointer and every
      power-of-two alignment. */
  lemma AlignWordIsAlignUp(p: nat, a: nat, w: nat)
    requires p < Pow2(w) && IsPowerOfTwo(a) && 0 < a <= Pow2(w)
    ensures AlignWord(p, a, w) == AlignUp(p, a) % Pow2(w)
    ensures p + (a - 1) < Pow2(w) ==> AlignWord(p, a, w) == AlignUp(p, a)
  {
    var k: nat :| a == Pow2(k);
    WordOfLimit(k, w);
    var x := (p + (a - 1)) % Pow2(w);
    var q := ClearLowIsMultiple(x, k);
    MaskClears(x, k, w);
    MultipleOf(q, a);
    assert AlignWord(p, a, w) == q * a;
    RoundedSum(p, a, Pow2(w), q);
  }

  lemma RoundedSum(p: nat, a: nat, limit: nat, q: nat)
    requires 0 < a <= limit && p < limit && Aligned(limit, a) && Aligned(q * a, a)
    requires q * a <= (p + (a - 1)) % limit < q * a + a
    ensures q * a == AlignUp(p, a) % limit
    ensures p + (a - 1) < limit ==> q * a == AlignUp(p, a)
  {
    var s := p + (a - 1);
    if s < limit {
      DivModUnique(s, 0, limit, s);
      RoundingIsAlignUp(p, a, q * a);
      DivModUnique(q * a, 0, limit, q * a);
    } else {
      DivModUnique(s, 1, limit, s - limit);
      ScaleMonotone(1, q, a);
      RoundingIsAlignUp(p, a, limit);
      DivModUnique(limit, 1, limit, 0);
    }
  }

  /** The assertion on alignments accepts exactly the powers of two. */
  lemma {:induction false} BitTestIsPowerOfTwo(a: nat)
    requires a > 0
    ensures And(a, a - 1) == 0 <==> IsPowerOfTwo(a)
  {
    if a == 1 {
      assert a == Pow2(0);
    } else if a % 2 == 1 {
      AndSelf(a / 2);
      assert (a - 1) / 2 == a / 2;
      assert And(a, a - 1) == 2 * And(a / 2, a / 2);
      forall k: nat ensures a != Pow2(k) { }
    } else {
      var h := a / 2;
      BitTestIsPowerOfTwo(h);
      assert (a - 1) / 2 == h - 1;
      assert And(a, a - 1) == 2 * And(h, h - 1);
      if IsPowerOfTwo(h) {
        var k: nat :| h == Pow2(k);
        assert a == Pow2(k + 1);
      }
      if IsPowerOfTwo(a) {
        var k: nat :| a == Pow2(k);
        assert h == Pow2(k - 1);
      }
    }
  }

  // ---------------------------------------------------------------- size headers

  /** The n bytes of a word, least significant first. */
  function Encode(v: nat, n: nat): (s: seq<Byte>)
    ensures |s| == n
  {
    if n == 0 then [] else [v % 256] + Encode(v / 256, n - 1)
  }

  function Decode(s: seq<Byte>): nat {
    if s == [] then 0 else s[0] + 256 * Decode(s[1..])
  }

  lemma Pow2Bytes(n: nat)
    ensures Pow2(8 * (n + 1)) == 256 * Pow2(8 * n)
  {
    PowAdd(8, 8 * n);
    assert Pow2(8) == 256 by {
      assert Pow2(4) == 16;
      PowAdd(4, 4);
    }
  }

  /** A value that fits n bytes survives being written to a header and read back. */
  lemma {:induction false} DecodeEncode(v: nat, n: nat)
    requires v < Pow2(8 * n)
    ensures Decode(Encode(v, n)) == v
  {
    if n > 0 {
      Pow2Bytes(n - 1);
      DecodeEncode(v / 256, n - 1);
      assert Encode(v, n)[1..] == Encode(v / 256, n - 1);
    }
  }
}
