/**
 The block rounding of a FileBucket slot, `(bytes + mask) & ~mask` in 32-bit signed arithmetic
 (example/conduits/FileBucket.d:289).
 */
module BlockRounding {
  const INT_MAX := 0x7fff_ffff
  const TWO_32 := 0x1_0000_0000

  function Pow2(k: nat): (r: nat)
    ensures r >= 1
  {
    if k == 0 then 1 else 2 * Pow2(k - 1)
  }

  /** A block size is a power of two up to 2^31; its mask is one less. */
  ghost predicate IsMask(mask: nat) {
    exists k: nat :: k <= 31 && mask + 1 == Pow2(k)
  }

  /** `x & ~m`, bit by bit. */
  function AndNot(x: nat, m: nat): nat {
    if x == 0 then 0
    else 2 * AndNot(x / 2, m / 2) + (if x % 2 == 1 && m % 2 == 0 then 1 else 0)
  }

  function ToUnsigned(x: int): nat
    requires -INT_MAX - 1 <= x <= INT_MAX
  {
    if x < 0 then x + TWO_32 else x
  }

  /** A 32-bit pattern read as a signed number. */
  function ToSigned(x: int): (r: int)
    ensures -INT_MAX - 1 <= r <= INT_MAX
    ensures -INT_MAX - 1 <= x <= INT_MAX ==> r == x
  {
    var u := x % TWO_32;
    if u <= INT_MAX then u else u - TWO_32
  }

  /** What the source assigns to `capacity`. */
  function NewCapacity(bytes: int, mask: nat): int {
    ToSigned(AndNot(ToUnsigned(ToSigned(bytes + mask)), mask))
  }

  /** Clearing the bits below the power of two `p` rounds down to a multiple of `p`. */
  predicate ClearsBelow(x: nat, p: nat)
    requires p >= 1
  {
    AndNot(x, p - 1) == x - x % p
  }

  lemma {:induction false} AndNotClearsLowBits(x: nat, k: nat)
    ensures ClearsBelow(x, Pow2(k))
    decreases k, x
  {
    if x == 0 {
      DivisionIsUnique(0, Pow2(k), 0, 0);
    } else if k == 0 {
      AndNotZero(x);
    } else {
      AndNotClearsLowBits(x / 2, k - 1);
      AndNotStep(x, Pow2(k - 1), Pow2(k));
    }
  }

  lemma AndNotStep(x: nat, p: nat, q: nat)
    requires x > 0 && p >= 1 && q == 2 * p && ClearsBelow(x / 2, p)
    ensures ClearsBelow(x, q)
  {
    HalvedRemainder(x, p);
  }

  lemma {:induction false} AndNotZero(x: nat)
    ensures AndNot(x, 0) == x
  {
    if x != 0 {
      AndNotZero(x / 2);
    }
  }

  lemma HalvedRemainder(x: nat, p: nat)
    requires p >= 1
    ensures x % (2 * p) == 2 * (x / 2 % p) + x % 2
  {
    var h := x / 2;
    var q, r := h / p, h % p;
    assert x == 2 * (q * p + r) + x % 2;
    assert x == q * (2 * p) + (2 * r + x % 2);
    DivisionIsUnique(x, 2 * p, q, 2 * r + x % 2);
  }

  lemma DivisionIsUnique(x: int, d: int, q: int, r: int)
    requires d > 0 && 0 <= r < d && x == q * d + r
    ensures x % d == r && x / d == q
  {
    var q', r' := x / d, x % d;
    assert (q' - q) * d == r - r';
    if q' > q {
      MultipleIsAtLeast(q' - q, d);
    } else if q' < q {
      MultipleIsAtLeast(q - q', d);
    }
  }

  lemma {:induction false} MultipleIsAtLeast(n: int, d: int)
    requires n >= 1 && d >= 0
    ensures n * d >= d
    decreases n
  {
  }

  /** `c` is the least multiple of `block` that is at least `bytes`. */
  ghost predicate IsRoundedUp(c: int, bytes: nat, block: int)
    requires block > 0
  {
    c >= bytes && c % block == 0 && c - block < bytes
  }

  lemma RoundedUpIsLeast(c: int, bytes: nat, block: int, other: int)
    requires block > 0 && IsRoundedUp(c, bytes, block)
    requires other % block == 0 && other >= bytes
    ensures c <= other
  {
    if other < c {
      MultiplesAreApart(other, c, block);
    }
  }

  lemma MultiplesAreApart(a: int, b: int, block: int)
    requires block > 0 && a % block == 0 && b % block == 0 && a < b
    ensures a + block <= b
  {
    var p, q := a / block, b / block;
    assert b - a == (q - p) * block;
    if q < p {
      MultipleIsAtLeast(p - q, block);
    } else if q > p {
      MultipleIsAtLeast(q - p, block);
    }
  }

  lemma {:induction false} PowersDivide(j: nat, k: nat)
    requires j <= k
    ensures Pow2(k) % Pow2(j) == 0
    ensures Pow2(j) <= Pow2(k)
  {
    if j == k {
      DivisionIsUnique(Pow2(k), Pow2(j), 1, 0);
    } else {
      PowersDivide(j, k - 1);
      var d := Pow2(k - 1) / Pow2(j);
      DivisionIsUnique(Pow2(k), Pow2(j), 2 * d, 0);
    }
  }

  lemma Pow31()
    ensures Pow2(31) == INT_MAX + 1
  {
    assert Pow2(8) == 256;
    assert Pow2(16) == 65536;
    assert Pow2(24) == 0x100_0000;
  }

  lemma CapacityIsRoundedDown(bytes: nat, mask: nat)
    requires bytes <= INT_MAX && IsMask(mask)
    ensures NewCapacity(bytes, mask) == ToSigned(bytes + mask - (bytes + mask) % (mask + 1))
  {
    var u := bytes + mask;
    MaskIsSmall(mask);
    MaskClears(u, mask);
    ToUnsignedOfSigned(u);
  }

  lemma SignedLow(low: int)
    requires 0 <= low < TWO_32
    ensures if low <= INT_MAX then ToSigned(low) == low else ToSigned(low) == low - TWO_32
  {
  }

  lemma LowIsRoundedUp(bytes: nat, u: nat, block: int, low: int)
    requires block > 0 && u == bytes + (block - 1) && low == u - u % block
    ensures IsRoundedUp(low, bytes, block) && low > u - block && low <= u
  {
    DivisionIsUnique(low, block, u / block, 0);
  }

  /**
   The new slot holds the data iff `bytes + mask` fits an `int`; then its capacity is `bytes` rounded up
   to the block size, and otherwise it is -2^31.
   */
  lemma SlotHoldsData(bytes: nat, mask: nat)
    requires bytes <= INT_MAX && IsMask(mask)
    ensures NewCapacity(bytes, mask) >= bytes <==> bytes + mask <= INT_MAX
    ensures bytes + mask <= INT_MAX ==> IsRoundedUp(NewCapacity(bytes, mask), bytes, mask + 1)
    ensures bytes + mask > INT_MAX ==> NewCapacity(bytes, mask) == -INT_MAX - 1
  {
    var u := bytes + mask;
    var low := u - u % (mask + 1);
    CapacityIsRoundedDown(bytes, mask);
    MaskDivides(mask);
    LowIsRoundedUp(bytes, u, mask + 1, low);
    if u > INT_MAX {
      RoundedStaysAbove(u, low, mask + 1);
    }
    SignedLow(low);
  }

  /** The largest `int` is too much for the smallest of the block sizes offered. */
  lemma LargestIntOverflows()
    ensures NewCapacity(INT_MAX, 127) < 0
  {
    assert Pow2(7) == 128;
    SlotHoldsData(INT_MAX, 127);
  }

  lemma MaskClears(u: nat, mask: nat)
    requires IsMask(mask)
    ensures AndNot(u, mask) == u - u % (mask + 1)
  {
    var k: nat :| k <= 31 && mask + 1 == Pow2(k);
    AndNotClearsLowBits(u, k);
    assert ClearsBelow(u, mask + 1);
  }

  /** 2^31 is a multiple of every block size. */
  lemma MaskDivides(mask: nat)
    requires IsMask(mask)
    ensures (INT_MAX + 1) % (mask + 1) == 0 && mask <= INT_MAX
  {
    var k: nat :| k <= 31 && mask + 1 == Pow2(k);
    PowersDivide(k, 31);
    Pow31();
  }

  lemma MaskIsSmall(mask: nat)
    requires IsMask(mask)
    ensures mask <= INT_MAX
  {
    MaskDivides(mask);
  }

  lemma ToUnsignedOfSigned(u: nat)
    requires u < TWO_32
    ensures ToUnsigned(ToSigned(u)) == u
    ensures u > INT_MAX ==> ToSigned(u) < 0
  {
  }

  /** Rounding down to a block from less than a block above 2^31, which is a multiple of the block, gives 2^31. */
  lemma RoundedStaysAbove(u: int, low: int, block: int)
    requires block > 0 && (INT_MAX + 1) % block == 0 && low % block == 0 && u - block < low <= u
    requires INT_MAX < u < INT_MAX + block
    ensures low == INT_MAX + 1
  {
    if low < INT_MAX + 1 {
      MultiplesAreApart(low, INT_MAX + 1, block);
    } else if low > INT_MAX + 1 {
      MultiplesAreApart(INT_MAX + 1, low, block);
    }
  }
}
