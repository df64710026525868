/**
 Fixed-width arithmetic behind the Globalnet allocator: powers of two, right
 shifts, the bitwise "or" used for bit smearing, and the operation that clears
 the low bits of an address. Everything is defined by halving, so that the
 proofs are inductions over bit positions.
 */
module Bits {

  const TWO_32: nat := 0x1_0000_0000
  const TWO_64: nat := 0x1_0000_0000_0000_0000

  type Word32 = x: nat | x < TWO_32
  type Word64 = x: nat | x < TWO_64

  function Pow2(e: nat): (p: nat)
    ensures p >= 1
  {
    if e == 0 then 1 else 2 * Pow2(e - 1)
  }

  // n >> k
  function Shr(n: nat, k: nat): nat
  {
    if k == 0 then n else Shr(n / 2, k - 1)
  }

  // n << k
  function Shl(n: nat, k: nat): nat
  {
    if k == 0 then n else 2 * Shl(n, k - 1)
  }

  // a | b
  function Or(a: nat, b: nat): nat
    decreases a + b
  {
    if a == 0 && b == 0 then 0
    else 2 * Or(a / 2, b / 2) + (if a % 2 == 1 || b % 2 == 1 then 1 else 0)
  }

  // n with its lowest e bits cleared
  function Mask(n: nat, e: nat): nat
  {
    if e == 0 then n else 2 * Mask(n / 2, e - 1)
  }

  // The number of bits needed to write n; 0 for 0.
  function BitLen(n: nat): nat
  {
    if n == 0 then 0 else 1 + BitLen(n / 2)
  }

  // bits.LeadingZeros on a 64-bit word
  function LeadingZeros(n: Word64): int
  {
    64 - BitLen(n)
  }

  // ---------- Powers of two ----------

  lemma {:induction false} ShlIsMul(n: nat, k: nat)
    ensures Shl(n, k) == n * Pow2(k)
  {
    if k > 0 {
      ShlIsMul(n, k - 1);
      DoubleMul(n, Pow2(k - 1));
    }
  }

  lemma DoubleMul(x: int, y: int)
    ensures x * (2 * y) == 2 * (x * y)
  {
  }

  lemma {:induction false} ShlPow2(a: nat, k: nat)
    ensures Shl(Pow2(a), k) == Pow2(a + k)
  {
    if k > 0 { ShlPow2(a, k - 1); }
  }

  lemma Pow2Add(a: nat, b: nat)
    ensures Pow2(a + b) == Pow2(a) * Pow2(b)
  {
    ShlPow2(a, b);
    ShlIsMul(Pow2(a), b);
  }

  lemma {:induction false} Pow2Monotone(a: nat, b: nat)
    requires a <= b
    ensures Pow2(a) <= Pow2(b)
    ensures a < b ==> 2 * Pow2(a) <= Pow2(b)
    decreases b
  {
    if a < b { Pow2Monotone(a, b - 1); }
  }

  lemma Pow2Is32()
    ensures Pow2(31) == 0x8000_0000 && Pow2(32) == TWO_32
  {
    Pow2Add(8, 8);
    Pow2Add(16, 16);
    assert Pow2(8) == 256;
    assert Pow2(32) == 2 * Pow2(31);
  }

  // ---------- Bit length ----------

  lemma {:induction false} BitLenBounds(n: nat)
    ensures n < Pow2(BitLen(n))
    ensures n > 0 ==> BitLen(n) > 0 && Pow2(BitLen(n) - 1) <= n
  {
    if n > 0 { BitLenBounds(n / 2); }
  }

  lemma {:induction false} BitLenAtMost(n: nat, e: nat)
    ensures n < Pow2(e) <==> BitLen(n) <= e
  {
    BitLenBounds(n);
    if BitLen(n) <= e {
      Pow2Monotone(BitLen(n), e);
    } else {
      Pow2Monotone(e, BitLen(n) - 1);
    }
  }

  // ---------- Clearing low bits ----------

  lemma {:induction false} MaskBounds(n: nat, e: nat)
    ensures Mask(n, e) <= n < Mask(n, e) + Pow2(e)
  {
    if e > 0 { MaskBounds(n / 2, e - 1); }
  }

  // x lies in the 2^e block that starts at Mask(n, e) iff clearing the low bits
  // of x gives the same start.
  lemma {:induction false} MaskSame(n: nat, x: nat, e: nat)
    ensures Mask(x, e) == Mask(n, e) <==> Mask(n, e) <= x < Mask(n, e) + Pow2(e)
  {
    if e > 0 { MaskSame(n / 2, x / 2, e - 1); }
  }

  lemma {:induction false} MaskMask(n: nat, e: nat, f: nat)
    requires e <= f
    ensures Mask(Mask(n, e), f) == Mask(n, f)
    ensures Mask(Mask(n, f), e) == Mask(n, f)
  {
    if e > 0 { MaskMask(n / 2, e - 1, f - 1); }
  }

  lemma {:induction false} MaskIsShift(n: nat, e: nat)
    ensures Mask(n, e) == Shl(Shr(n, e), e)
  {
    if e > 0 { MaskIsShift(n / 2, e - 1); }
  }

  lemma MaskIsSubtractRemainder(n: nat, e: nat)
    ensures Mask(n, e) == n - n % Pow2(e)
  {
    MaskIsShift(n, e);
    ShlIsMul(Shr(n, e), e);
    MaskBounds(n, e);
    DivModUnique(n, Pow2(e), Shr(n, e), n - Mask(n, e));
  }

  lemma MulAtLeast(k: int, d: int)
    requires k >= 1 && d >= 0
    ensures k * d >= d
  {
  }

  lemma DivModUnique(n: nat, d: nat, q: nat, r: nat)
    requires d > 0 && r < d && n == q * d + r
    ensures n % d == r && n / d == q
  {
    var q', r' := n / d, n % d;
    assert n == q' * d + r' && r' < d;
    SameQuotient(d, q, r, q', r');
  }

  lemma SameQuotient(d: nat, q: nat, r: nat, q': nat, r': nat)
    requires r < d && r' < d && q * d + r == q' * d + r'
    ensures q == q' && r == r'
  {
    if q' > q {
      assert (q' - q) * d == q' * d - q * d;
      MulAtLeast(q' - q, d);
    } else if q' < q {
      assert (q - q') * d == q * d - q' * d;
      MulAtLeast(q - q', d);
    }
  }

  // Clearing low bits never moves an address past the end of an aligned 2^f block.
  lemma {:induction false} MaskEnd(n: nat, e: nat, f: nat)
    requires e <= f && n < Pow2(f)
    ensures Mask(n, e) + Pow2(e) <= Pow2(f)
  {
    if e > 0 { MaskEnd(n / 2, e - 1, f - 1); }
  }

  // The address after an aligned block is aligned in the same way.
  lemma {:induction false} MaskStep(n: nat, e: nat)
    requires Mask(n, e) == n
    ensures Mask(n + Pow2(e), e) == n + Pow2(e)
  {
    if e > 0 {
      var p := Pow2(e - 1);
      assert n == 2 * Mask(n / 2, e - 1);
      MaskStep(n / 2, e - 1);
      assert (n + 2 * p) / 2 == n / 2 + p;
    }
  }

  // ---------- Bit smearing ----------

  lemma {:induction false} ShrShr(n: nat, j: nat, k: nat)
    ensures Shr(Shr(n, j), k) == Shr(n, j + k)
  {
    if j > 0 { ShrShr(n / 2, j - 1, k); }
  }

  lemma {:induction false} ShlOnes(t: nat, k: nat)
    ensures Shl(Pow2(t) - 1, k) == Pow2(t + k) - Pow2(k)
  {
    if k > 0 { ShlOnes(t, k - 1); }
  }

  lemma {:induction false} ShrOr(a: nat, b: nat, k: nat)
    ensures Shr(Or(a, b), k) == Or(Shr(a, k), Shr(b, k))
  {
    if k > 0 {
      assert Or(a, b) / 2 == Or(a / 2, b / 2);
      ShrOr(a / 2, b / 2, k - 1);
    }
  }

  lemma {:induction false} OrOnes(a: nat, t: nat)
    ensures Or(a, Pow2(t) - 1) == Mask(a, t) + Pow2(t) - 1
  {
    if t == 0 {
      OrZero(a);
    } else {
      OrOnes(a / 2, t - 1);
      assert (Pow2(t) - 1) / 2 == Pow2(t - 1) - 1;
    }
  }

  lemma {:induction false} OrZero(a: nat)
    ensures Or(a, 0) == a
  {
    if a > 0 { OrZero(a / 2); }
  }

  lemma {:induction false} ShrOnes(t: nat, k: nat)
    requires k <= t
    ensures Shr(Pow2(t) - 1, k) == Pow2(t - k) - 1
  {
    if k > 0 {
      assert (Pow2(t) - 1) / 2 == Pow2(t - 1) - 1;
      ShrOnes(t - 1, k - 1);
    }
  }

  // n has at most len bits and its top t bits are all ones.
  predicate TopOnes(n: nat, len: nat, t: nat)
  {
    t <= len && Shr(n, len - t) == Pow2(t) - 1
  }

  // One "n |= n >> t" doubles the run of leading ones ...
  lemma SmearDoubles(n: nat, len: nat, t: nat)
    requires TopOnes(n, len, t) && 2 * t <= len
    ensures TopOnes(Or(n, Shr(n, t)), len, 2 * t)
  {
    var k := len - 2 * t;
    var a := Shr(n, k);
    ShrShr(n, t, k);
    ShrShr(n, k, t);
    assert Shr(Or(n, Shr(n, t)), k) == Or(a, Pow2(t) - 1) by { ShrOr(n, Shr(n, t), k); }
    assert Mask(a, t) == Pow2(2 * t) - Pow2(t) by {
      MaskIsShift(a, t);
      ShlOnes(t, t);
    }
    OrOnes(a, t);
  }

  // ... until every bit below the highest one is set.
  lemma SmearFills(n: nat, len: nat, t: nat)
    requires TopOnes(n, len, t) && 2 * t > len
    ensures TopOnes(Or(n, Shr(n, t)), len, len)
  {
    var u := len - t;
    ShrShr(n, u, t - u);
    ShrOnes(t, t - u);
    assert Shr(n, t) == Pow2(u) - 1;
    OrOnes(n, u);
    assert Mask(n, u) == Pow2(len) - Pow2(u) by {
      MaskIsShift(n, u);
      ShlOnes(t, u);
    }
    assert Shr(Or(n, Shr(n, t)), 0) == Or(n, Shr(n, t));
  }

  function Min(a: nat, b: nat): nat { if a <= b then a else b }

  lemma SmearStep(n: nat, len: nat, t: nat)
    requires TopOnes(n, len, Min(t, len))
    ensures TopOnes(Or(n, Shr(n, t)), len, Min(2 * t, len))
  {
    if len < t {
      SmearLonger(n, len, t);
    } else if 2 * t <= len {
      SmearDoubles(n, len, t);
    } else {
      SmearFills(n, len, t);
    }
  }

  // A run that already fills the word is not changed by a longer shift.
  lemma SmearLonger(n: nat, len: nat, t: nat)
    requires len <= t && TopOnes(n, len, len)
    ensures TopOnes(Or(n, Shr(n, t)), len, len)
  {
    assert Shr(n, 0) == n;
    ShrShr(n, len, t - len);
    ShrOnes(len, len);
    assert Shr(n, len) == 0;
    ShrZero(t - len);
    OrZero(n);
  }

  lemma {:induction false} ShrZero(k: nat)
    ensures Shr(0, k) == 0
  {
    if k > 0 { ShrZero(k - 1); }
  }

  // A word has the one-bit run that the smearing starts from.
  lemma {:induction false} TopBitIsOne(n: nat)
    requires n > 0
    ensures TopOnes(n, BitLen(n), 1)
  {
    if n > 1 { TopBitIsOne(n / 2); }
  }

  // What rounding up to a power of two means on 32-bit words: the power for
  // 1..2^31, and 0 where the word wraps around.
  function RoundUp(n: Word32): nat
  {
    if 1 <= n <= 0x8000_0000 then Pow2(BitLen(n - 1)) else 0
  }

  // p is the least power of two that is no smaller than n.
  ghost predicate IsLeastPow2(p: nat, n: nat)
  {
    && (exists e: nat :: p == Pow2(e))
    && n <= p && forall k: nat :: n <= Pow2(k) ==> p <= Pow2(k)
  }

  // RoundUp gives the least power of two that is no smaller than its argument.
  lemma RoundUpIsLeast(n: Word32)
    requires 1 <= n <= 0x8000_0000
    ensures n <= RoundUp(n) <= 0x8000_0000
    ensures IsLeastPow2(RoundUp(n), n)
    ensures forall k: nat :: n <= Pow2(k) ==> RoundUp(n) <= Pow2(k)
  {
    Pow2Is32();
    BitLenAtMost(n - 1, 31);
    Pow2Monotone(BitLen(n - 1), 31);
    BitLenBounds(n - 1);
    forall k: nat | n <= Pow2(k)
      ensures RoundUp(n) <= Pow2(k)
    {
      BitLenAtMost(n - 1, k);
      Pow2Monotone(BitLen(n - 1), k);
    }
  }

  // The word before the smearing decides the result.
  lemma SmearedWord(w: Word32)
    ensures var len := BitLen(Decrement(w));
            && len <= 32 && TopOnes(Decrement(w), len, Min(1, len))
            && Pow2(len) - 1 < TWO_32 && Increment(Pow2(len) - 1) == RoundUp(w)
  {
    var n := Decrement(w);
    var len := BitLen(n);
    if n > 0 { TopBitIsOne(n); } else { assert TopOnes(0, 0, 0); }
    Pow2Is32();
    BitLenAtMost(n, 32);
    BitLenAtMost(n, 31);
    Pow2Monotone(len, 32);
    if 1 <= w <= 0x8000_0000 {
      RoundUpIsLeast(w);
      assert Pow2(len) == RoundUp(w) <= 0x8000_0000;
    } else {
      assert len == 32;
    }
  }

  // The five smearing steps set every bit below the highest one.
  lemma SmearAll(n0: nat, len: nat, n1: nat, n2: nat, n3: nat, n4: nat, n5: nat)
    requires len <= 32 && TopOnes(n0, len, Min(1, len))
    requires n1 == Or(n0, Shr(n0, 1)) && n2 == Or(n1, Shr(n1, 2)) && n3 == Or(n2, Shr(n2, 4))
    requires n4 == Or(n3, Shr(n3, 8)) && n5 == Or(n4, Shr(n4, 16))
    ensures n5 == Pow2(len) - 1
  {
    SmearStep(n0, len, 1);
    SmearStep(n1, len, 2);
    SmearStep(n2, len, 4);
    SmearStep(n3, len, 8);
    SmearStep(n4, len, 16);
    AllOnes(n5, len);
  }

  lemma AllOnes(n: nat, len: nat)
    requires TopOnes(n, len, len)
    ensures n == Pow2(len) - 1
  {
  }

  // n - 1 and n + 1 on 32-bit words
  function Decrement(w: Word32): Word32
  {
    if w == 0 then 0xFFFF_FFFF else w - 1
  }

  function Increment(w: Word32): Word32
  {
    if w == 0xFFFF_FFFF then 0 else w + 1
  }

  /** Rounds a 32-bit word up to a power of two by smearing its highest bit
      downwards; the subtraction and the addition wrap around. */
  method NextPowerOf2(w: Word32) returns (p: nat)
    ensures p == RoundUp(w)
  {
    var n: nat := Decrement(w);
    ghost var n0 := n;
    n := Or(n, Shr(n, 1));
    ghost var n1 := n;
    n := Or(n, Shr(n, 2));
    ghost var n2 := n;
    n := Or(n, Shr(n, 4));
    ghost var n3 := n;
    n := Or(n, Shr(n, 8));
    ghost var n4 := n;
    n := Or(n, Shr(n, 16));
    SmearedWord(w);
    SmearAll(n0, BitLen(n0), n1, n2, n3, n4, n);
    p := Increment(n);
  }
}
