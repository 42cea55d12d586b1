/** The fixed-width integer semantics of Rust that the solvers rely on:
    casts between `i64`, `u64`, `u32` and `usize` (64-bit target), division
    and remainder rounded toward zero, and bitwise exclusive or on `i64`. */
module Ints {
  const TwoTo32: int := 0x1_0000_0000
  const TwoTo63: int := 0x8000_0000_0000_0000
  const TwoTo64: int := 0x1_0000_0000_0000_0000

  predicate IsI64(x: int) {
    -TwoTo63 <= x < TwoTo63
  }

  /** `v as i64` for a `u64` value: the same 64 bits read in two's complement. */
  function AsI64(v: nat): (r: int)
    requires v < TwoTo64
    ensures IsI64(r)
    ensures (r - v) % TwoTo64 == 0
  {
    if v < TwoTo63 then v else v - TwoTo64
  }

  /** `x as u64` (and `x as usize`) for an `i64`: the same 64 bits read unsigned. */
  function AsU64(x: int): (r: nat)
    requires IsI64(x)
    ensures r < TwoTo64
    ensures (r - x) % TwoTo64 == 0
  {
    if x >= 0 then x else x + TwoTo64
  }

  /** The two casts undo each other. */
  lemma CastsRoundTrip(x: int, v: nat)
    requires IsI64(x) && v < TwoTo64
    ensures AsI64(AsU64(x)) == x
    ensures AsU64(AsI64(v)) == v
  {
  }

  /** The low 64 bits of `v` read as an `i64`: what a wrapping operation keeps. */
  function WrapI64(v: int): (r: int)
    ensures IsI64(r)
    ensures (r - v) % TwoTo64 == 0
  {
    AsI64(v % TwoTo64)
  }

  /** `x as u32` for an `i64`: its low 32 bits, read unsigned. */
  function AsU32(x: int): (r: nat)
    ensures r < TwoTo32
    ensures (r - x) % TwoTo32 == 0
  {
    x % TwoTo32
  }

  function Abs(n: int): nat {
    if n < 0 then -n else n
  }

  /** Rust's `/` on `i64`: the quotient rounded toward zero. For a
      non-negative dividend it agrees with Dafny's Euclidean `/`. */
  function TDiv(n: int, d: int): int
    requires d != 0
  {
    if n >= 0 then n / d else -((-n) / d)
  }

  /** Truncating division leaves a remainder `n - d * q` that is smaller
      than `d` in size and never has the opposite sign of `n`. */
  lemma TDivTruncates(n: int, d: int)
    requires d != 0
    ensures Abs(n - d * TDiv(n, d)) < Abs(d)
    ensures n >= 0 ==> n - d * TDiv(n, d) >= 0
    ensures n < 0 ==> n - d * TDiv(n, d) <= 0
  {
    if n >= 0 {
      assert n - d * (n / d) == n % d;
    } else {
      var m := -n;
      assert m - d * (m / d) == m % d;
      assert d * TDiv(n, d) == -(d * (m / d));
    }
  }

  lemma AbsMul(d: int, x: int)
    ensures Abs(d * x) == Abs(d) * Abs(x)
  {
    if d < 0 && x < 0 {
      assert d * x == (-d) * (-x);
    } else if d < 0 {
      assert -(d * x) == (-d) * x;
    } else if x < 0 {
      assert -(d * x) == d * (-x);
    }
  }

  lemma {:induction false} MulAtLeast(p: nat, q: nat)
    requires q >= 1
    ensures p * q >= p
  {
    if q > 1 {
      MulAtLeast(p, q - 1);
      assert p * q == p * (q - 1) + p;
    }
  }

  /** The only multiple of `d` smaller than `d` in size is 0. */
  lemma SmallMultiple(d: int, x: int)
    requires d != 0 && Abs(d * x) < Abs(d)
    ensures x == 0
  {
    if x != 0 {
      AbsMul(d, x);
      MulAtLeast(Abs(d), Abs(x));
    }
  }

  /** A non-negative exact multiple divides back to its factor under `/`. */
  lemma MulDivCancel(a: int, d: int)
    requires d != 0 && a * d >= 0
    ensures (a * d) / d == a
  {
    var n := a * d;
    assert n - d * (n / d) == n % d;
    assert d * (a - n / d) == n - d * (n / d);
    SmallMultiple(d, a - n / d);
  }

  /** An exact multiple divides back to its factor. */
  lemma TDivExact(a: int, d: int)
    requires d != 0
    ensures TDiv(a * d, d) == a
  {
    if a * d >= 0 {
      MulDivCancel(a, d);
    } else {
      assert -(a * d) == (-a) * d;
      MulDivCancel(-a, d);
    }
  }

  /** Rust's `%` on integers: the remainder of truncating division. */
  function TMod(n: int, d: int): int
    requires d != 0
  {
    n - d * TDiv(n, d)
  }

  /** A remainder is smaller than the divisor in size and carries the sign
      of the dividend; for a non-negative dividend it is Dafny's `%`. */
  lemma TModRange(n: int, d: int)
    requires d != 0
    ensures Abs(TMod(n, d)) < Abs(d)
    ensures n >= 0 ==> 0 <= TMod(n, d) && TMod(n, d) == n % d
    ensures n < 0 ==> TMod(n, d) <= 0
  {
    TDivTruncates(n, d);
    if n >= 0 {
      assert n - d * (n / d) == n % d;
    }
  }

  /** The Euclidean quotient of a natural by a positive divisor is at most the natural. */
  lemma DivAtMost(m: nat, d: int)
    requires d > 0
    ensures 0 <= m / d <= m
  {
    var q := m / d;
    assert m == d * q + m % d;
    if q >= 1 {
      MulAtLeast(q, d);
      assert q * d == d * q;
    }
  }

  /** Dividing by a positive divisor never moves away from zero. */
  lemma TDivShrinks(n: int, d: int)
    requires d > 0
    ensures Abs(TDiv(n, d)) <= Abs(n)
    ensures n >= 0 ==> TDiv(n, d) >= 0
    ensures n <= 0 ==> TDiv(n, d) <= 0
  {
    if n >= 0 {
      DivAtMost(n, d);
    } else {
      DivAtMost(-n, d);
    }
  }

  function Pow2(n: nat): (r: nat)
    ensures r >= 1
  {
    if n == 0 then 1 else 2 * Pow2(n - 1)
  }

  lemma {:induction false} Pow2Add(j: nat, k: nat)
    ensures Pow2(j + k) == Pow2(j) * Pow2(k)
    decreases k
  {
    if k > 0 {
      Pow2Add(j, k - 1);
      assert Pow2(j + k) == 2 * Pow2(j + k - 1);
      assert Pow2(j) * Pow2(k) == Pow2(j) * (2 * Pow2(k - 1));
    }
  }

  lemma Pow2Of8()
    ensures Pow2(8) == 256
  {
    assert Pow2(4) == 16;
    Pow2Add(4, 4);
  }

  lemma Pow2Of64()
    ensures Pow2(64) == TwoTo64
  {
    Pow2Of8();
    Pow2Add(8, 8);
    assert Pow2(16) == 0x1_0000;
    Pow2Add(16, 16);
    assert Pow2(32) == TwoTo32;
    Pow2Add(32, 32);
  }

  /** Exclusive or of the low `n` bits of two naturals. */
  function XorBits(x: nat, y: nat, n: nat): nat {
    if n == 0 then 0 else (if x % 2 == y % 2 then 0 else 1) + 2 * XorBits(x / 2, y / 2, n - 1)
  }

  /** The exclusive or of `n` bits has at most `n` bits. */
  lemma {:induction false} XorBitsFit(x: nat, y: nat, n: nat)
    ensures XorBits(x, y, n) < Pow2(n)
  {
    if n > 0 {
      XorBitsFit(x / 2, y / 2, n - 1);
    }
  }

  /** Or-ing in the same bits twice gives the original bits back. */
  lemma {:induction false} XorBitsInvolutive(x: nat, y: nat, n: nat)
    requires x < Pow2(n)
    ensures XorBits(XorBits(x, y, n), y, n) == x
  {
    if n > 0 {
      var z := XorBits(x, y, n);
      var low := XorBits(x / 2, y / 2, n - 1);
      assert z % 2 == (if x % 2 == y % 2 then 0 else 1) && z / 2 == low;
      XorBitsInvolutive(x / 2, y / 2, n - 1);
    }
  }

  /** `x ^ y` on `i64`: exclusive or of the two's-complement bit patterns. */
  function Xor(x: int, y: int): (r: int)
    requires IsI64(x) && IsI64(y)
    ensures IsI64(r)
  {
    XorBitsFit(AsU64(x), AsU64(y), 64);
    Pow2Of64();
    AsI64(XorBits(AsU64(x), AsU64(y), 64))
  }

  /** `(x ^ y) ^ y == x`. */
  lemma XorInvolutive(x: int, y: int)
    requires IsI64(x) && IsI64(y)
    ensures Xor(Xor(x, y), y) == x
  {
    Pow2Of64();
    var z := XorBits(AsU64(x), AsU64(y), 64);
    XorBitsFit(AsU64(x), AsU64(y), 64);
    CastsRoundTrip(x, z);
    XorBitsInvolutive(AsU64(x), AsU64(y), 64);
  }

  /** Exclusive or keeps the bits below any bound both operands stay under. */
  lemma {:induction false} XorBitsBelow(x: nat, y: nat, n: nat, k: nat)
    requires x < Pow2(k) && y < Pow2(k)
    ensures XorBits(x, y, n) < Pow2(k)
    decreases n
  {
    if n > 0 && k > 0 {
      XorBitsBelow(x / 2, y / 2, n - 1, k - 1);
    } else if n > 0 {
      XorBitsBelow(x / 2, y / 2, n - 1, k);
    }
  }

  /** Non-negative `i64` values have a non-negative exclusive or. */
  lemma XorNonNegative(x: int, y: int)
    requires IsI64(x) && IsI64(y) && x >= 0 && y >= 0
    ensures Xor(x, y) >= 0
  {
    Pow2Of64();
    assert Pow2(63) == TwoTo63;
    XorBitsBelow(x, y, 64, 63);
  }
}
