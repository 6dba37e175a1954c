/**
  Address decomposition of the cache model.

  An unsigned 32-bit byte address is split into three fields,
  from the low bits up: the block offset (`offsetBits` wide), the set
  index (`setBits` wide) and the tag (everything above). The simulator
  computes the fields with masks and shifts; here every bitwise operation
  on an unsigned value below 2^32 is written by its arithmetic meaning:

    x >> n                          ==  x / 2^n
    x & ((1 << n) - 1)              ==  x % 2^n
    x & (((1 << w) - 1) << lo)      ==  x % 2^(lo + w) - x % 2^lo
    x & (0xFFFFFFFF << n)           ==  x - x % 2^n
 */
module Address {

  /** Unsigned 32-bit addresses. */
  const WORD_RANGE: nat := 0x1_0000_0000
  type Addr = a: nat | a < WORD_RANGE

  function Pow2(n: nat): (r: nat)
    ensures r >= 1
  {
    if n == 0 then 1 else 2 * Pow2(n - 1)
  }

  /** n is 2^k for some k */
  predicate IsPow2(n: nat)
    decreases n
  {
    n == 1 || (n >= 2 && n % 2 == 0 && IsPow2(n / 2))
  }

  /** Base-2 logarithm, rounded down (0 for 0 and 1). */
  function Log2(n: nat): nat
    decreases n
  {
    if n <= 1 then 0 else 1 + Log2(n / 2)
  }

  lemma {:induction false} Log2OfPow2(n: nat)
    requires IsPow2(n)
    ensures Pow2(Log2(n)) == n
    decreases n
  {
    if n != 1 {
      Log2OfPow2(n / 2);
    }
  }

  lemma {:induction false} Pow2IsPow2(k: nat)
    ensures IsPow2(Pow2(k))
    ensures Log2(Pow2(k)) == k
  {
    if k > 0 {
      Pow2IsPow2(k - 1);
      assert Pow2(k) / 2 == Pow2(k - 1);
    }
  }

  lemma {:induction false} Pow2Add(a: nat, b: nat)
    ensures Pow2(a + b) == Pow2(a) * Pow2(b)
  {
    if a > 0 {
      Pow2Add(a - 1, b);
    }
  }

  // ---------------------------------------------------------------------
  // Shifts and masks on unsigned values

  /** x >> n */
  function ShiftRight(x: nat, n: nat): nat
  {
    QuotientNonnegative(x, Pow2(n));
    x / Pow2(n)
  }

  lemma QuotientNonnegative(x: nat, d: int)
    requires d > 0
    ensures x / d >= 0
  {
  }

  /** x & ((1 << n) - 1): the n low bits of x */
  function LowBits(x: nat, n: nat): (r: nat)
    ensures r < Pow2(n)
  {
    x % Pow2(n)
  }

  /** x & (((1 << width) - 1) << lo): bits lo .. lo + width - 1 of x, left in place */
  function FieldBits(x: nat, lo: nat, width: nat): int
  {
    LowBits(x, lo + width) - LowBits(x, lo)
  }

  /** x & (0xFFFFFFFF << n) for x < 2^32: x with its n low bits cleared */
  function ClearLowBits(x: nat, n: nat): nat
  {
    LowBitsAtMost(x, n);
    x - LowBits(x, n)
  }

  // ---------------------------------------------------------------------
  // Division and remainder facts

  lemma LowBitsAtMost(x: nat, n: nat)
    ensures LowBits(x, n) <= x
  {
    var p := Pow2(n);
    if x < p {
      DivModUnique(x, p, 0, x);
    }
  }

  lemma MulAtLeast(d: int, k: int)
    requires d > 0 && k >= 1
    ensures d * k >= d
  {
    assert d * k == d + d * (k - 1);
  }

  /** q and m are the quotient and remainder of x by d once x == d * q + m with 0 <= m < d. */
  lemma DivModUnique(x: int, d: int, q: int, m: int)
    requires d > 0 && 0 <= m < d && x == d * q + m
    ensures x / d == q && x % d == m
  {
    var q', m' := x / d, x % d;
    assert d * q' + m' == x;
    assert d * (q - q') == m' - m by {
      assert d * (q - q') == d * q - d * q';
    }
    assert d * (q' - q) == m - m' by {
      assert d * (q' - q) == d * q' - d * q;
    }
    if q - q' >= 1 {
      MulAtLeast(d, q - q');
    }
    if q' - q >= 1 {
      MulAtLeast(d, q' - q);
    }
  }

  lemma Regroup(p: int, q: int, b: int, s: int)
    ensures p * (q * b + s) == (p * q) * b + p * s
  {
    assert p * (q * b + s) == p * (q * b) + p * s;
    assert p * (q * b) == (p * q) * b;
  }

  lemma RemainderBound(p: int, q: int, s: int, r: int)
    requires 0 <= s < q && 0 <= r < p
    ensures p * s + r < p * q
  {
    assert p * (q - 1) - p * s == p * (q - 1 - s);
    assert p * (q - 1 - s) >= 0;
    assert p * (q - 1) == p * q - p;
  }

  /** Dividing by p and then by q is dividing by p * q; the remainder splits likewise. */
  lemma DivModNested(x: nat, p: nat, q: nat)
    requires p > 0 && q > 0
    ensures x / (p * q) == (x / p) / q
    ensures x % (p * q) == x % p + p * ((x / p) % q)
  {
    var a, r := x / p, x % p;
    var b, s := a / q, a % q;
    assert x == p * a + r;
    assert a == q * b + s;
    Regroup(p, q, b, s);
    RemainderBound(p, q, s, r);
    assert x == (p * q) * b + (p * s + r);
    DivModUnique(x, p * q, b, p * s + r);
  }

  lemma {:induction false} LowBitsSplit(x: nat, lo: nat, width: nat)
    ensures LowBits(x, lo + width) == LowBits(x, lo) + Pow2(lo) * LowBits(ShiftRight(x, lo), width)
    ensures ShiftRight(x, lo + width) == ShiftRight(ShiftRight(x, lo), width)
  {
    Pow2Add(lo, width);
    DivModNested(x, Pow2(lo), Pow2(width));
  }

  // ---------------------------------------------------------------------
  // Cache geometry and the decomposition

  /** The bit layout of one cache: the number of sets is 2^setBits and a block spans 2^offsetBits bytes. */
  datatype Layout = Layout(setBits: nat, offsetBits: nat)
  {
    predicate Valid()
    {
      setBits + offsetBits < 32
    }

    function NumSets(): nat
    {
      Pow2(setBits)
    }
  }

  /** Shifting a value left by n and back again gives it back. */
  lemma ShiftBack(y: nat, n: nat)
    ensures ShiftRight(Pow2(n) * y, n) == y
  {
    DivModUnique(Pow2(n) * y, Pow2(n), y, 0);
  }

  lemma ClearedIsMultiple(x: nat, n: nat)
    ensures ClearLowBits(x, n) == Pow2(n) * (x / Pow2(n))
  {
    var p := Pow2(n);
    assert x == p * (x / p) + x % p;
  }



  /** (addr & index_mask) >> index_mask_offset, where index_mask == ((1 << setBits) - 1) << offsetBits */
  function SetIndex(l: Layout, addr: Addr): (index: nat)
    ensures index == (addr / Pow2(l.offsetBits)) % Pow2(l.setBits)
    ensures index < l.NumSets()
  {
    LowBitsSplit(addr, l.offsetBits, l.setBits);
    ShiftBack(LowBits(ShiftRight(addr, l.offsetBits), l.setBits), l.offsetBits);
    ShiftRight(FieldBits(addr, l.offsetBits, l.setBits), l.offsetBits)
  }

  /** calc_tag: (addr & (0xFFFFFFFF << (setBits + offsetBits))) >> (setBits + offsetBits) */
  function Tag(l: Layout, addr: Addr): (tag: nat)
    ensures tag == addr / Pow2(l.setBits + l.offsetBits)
  {
    var k := l.setBits + l.offsetBits;
    ClearedIsMultiple(addr, k);
    ShiftBack(addr / Pow2(k), k);
    ShiftRight(ClearLowBits(addr, k), k)
  }

  /** The block offset: addr & ((1 << offsetBits) - 1) */
  function BlockOffset(l: Layout, addr: Addr): (offset: nat)
    ensures offset < Pow2(l.offsetBits)
  {
    LowBits(addr, l.offsetBits)
  }

  /** The tag is the block number divided by the number of sets; the set index is the remainder. */
  lemma TagOfBlock(l: Layout, addr: Addr)
    ensures Tag(l, addr) == (addr / Pow2(l.offsetBits)) / l.NumSets()
  {
    Pow2Add(l.offsetBits, l.setBits);
    DivModNested(addr, Pow2(l.offsetBits), Pow2(l.setBits));
  }

  lemma Recombine(x: nat, o: nat, s: nat, t: nat, i: nat)
    requires o > 0 && x / o == s * t + i
    ensures t * (o * s) + i * o + x % o == x
  {
    Regroup(o, s, t, i);
    assert x == o * (x / o) + x % o;
  }

  lemma RecombineFields(x: nat, o: nat, s: nat, t: nat, i: nat)
    requires o > 0 && s > 0 && t == (x / o) / s && i == (x / o) % s
    ensures t * (o * s) + i * o + x % o == x
  {
    var block := x / o;
    assert block == s * (block / s) + block % s;
    Recombine(x, o, s, t, i);
  }

  /** The three fields put back together give the address. */
  lemma Recompose(l: Layout, addr: Addr)
    ensures Tag(l, addr) * Pow2(l.setBits + l.offsetBits)
            + SetIndex(l, addr) * Pow2(l.offsetBits)
            + BlockOffset(l, addr) == addr
  {
    var o, s := Pow2(l.offsetBits), Pow2(l.setBits);
    TagOfBlock(l, addr);
    RecombineFields(addr, o, s, Tag(l, addr), SetIndex(l, addr));
    Pow2Add(l.offsetBits, l.setBits);
  }

  /** Set index and tag together identify the block: two addresses agree on both
      exactly when they lie in the same block. */
  lemma SameBlockIff(l: Layout, a: Addr, b: Addr)
    ensures (SetIndex(l, a) == SetIndex(l, b) && Tag(l, a) == Tag(l, b))
            <==> a / Pow2(l.offsetBits) == b / Pow2(l.offsetBits)
  {
    TagOfBlock(l, a);
    TagOfBlock(l, b);
    QuotientRemainderIff(a / Pow2(l.offsetBits), b / Pow2(l.offsetBits), l.NumSets());
  }

  /** Two numbers are equal exactly when their quotients and remainders by s are. */
  lemma QuotientRemainderIff(x: nat, y: nat, s: nat)
    requires s > 0
    ensures (x % s == y % s && x / s == y / s) <==> x == y
  {
    assert x == s * (x / s) + x % s;
    assert y == s * (y / s) + y % s;
  }

  lemma Pow2Of32()
    ensures Pow2(32) == WORD_RANGE
  {
    assert Pow2(4) == 16;
    Pow2Add(4, 4);
    Pow2Add(8, 8);
    Pow2Add(16, 16);
  }

  /** The tag of a 32-bit address has 32 - setBits - offsetBits bits. */
  lemma TagBound(l: Layout, addr: Addr)
    requires l.Valid()
    ensures Tag(l, addr) < Pow2(32 - l.setBits - l.offsetBits)
  {
    var k := l.setBits + l.offsetBits;
    var p, q := Pow2(k), Pow2(32 - k);
    Pow2Add(k, 32 - k);
    Pow2Of32();
    DivModUnique(addr, p * q, 0, addr);
    DivModNested(addr, p, q);
    var t := addr / p;
    assert t == q * (t / q) + t % q;
  }
}
