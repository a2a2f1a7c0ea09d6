/** Powers of two, over the integers and over the reals.
    Shifts, masks and exponents in the emulator are all expressed through these. */
module Powers {
  import opened Prelude

  function Pow2(n: nat): (r: nat)
    ensures r >= 1
  {
    if n == 0 then 1 else 2 * Pow2(n - 1)
  }

  lemma {:induction false} Pow2Mono(a: nat, b: nat)
    requires a <= b
    ensures Pow2(a) <= Pow2(b)
    decreases b
  {
    if a < b { Pow2Mono(a, b - 1); }
  }

  lemma {:induction false} Pow2Strict(a: nat, b: nat)
    requires a < b
    ensures 2 * Pow2(a) <= Pow2(b)
  {
    Pow2Mono(a, b - 1);
  }

  /** The position of the top set bit: 127 - leading_zeros for a u128. */
  function Msb(n: nat): (r: nat)
    requires n > 0
    ensures Pow2(r) <= n < Pow2(r + 1)
  {
    if n == 1 then 0 else Msb(n / 2) + 1
  }

  lemma {:induction false} MsbBelow(n: nat, k: nat)
    requires 0 < n < Pow2(k)
    ensures k > 0 && Msb(n) <= k - 1
  {
    if Msb(n) >= k { Pow2Mono(k, Msb(n)); }
  }

  lemma {:induction false} MsbAtLeast(n: nat, k: nat)
    requires n >= Pow2(k)
    ensures n > 0 && Msb(n) >= k
  {
    if Msb(n) < k { Pow2Mono(Msb(n) + 1, k); }
  }

  // --- shifts and masks ---------------------------------------------------------------
  //
  // Written one bit at a time, so that reasoning about them stays linear.

  /** n << k. */
  function Shl(n: nat, k: nat): (r: nat) {
    if k == 0 then n else 2 * Shl(n, k - 1)
  }

  /** n >> k. */
  function Shr(n: nat, k: nat): (r: nat) {
    if k == 0 then n else Shr(n / 2, k - 1)
  }

  /** The k low bits of n. */
  function Low(n: nat, k: nat): (r: nat) {
    if k == 0 then 0 else 2 * Low(n / 2, k - 1) + n % 2
  }

  lemma {:induction false} ShlOne(k: nat)
    ensures Shl(1, k) == Pow2(k) && Shl(0, k) == 0
  {
    if k != 0 { ShlOne(k - 1); }
  }

  lemma {:induction false} ShlAdd(a: nat, b: nat, k: nat)
    ensures Shl(a + b, k) == Shl(a, k) + Shl(b, k)
  {
    if k != 0 { ShlAdd(a, b, k - 1); }
  }

  lemma {:induction false} ShlShl(n: nat, a: nat, b: nat)
    ensures Shl(Shl(n, a), b) == Shl(n, a + b)
  {
    if b != 0 { ShlShl(n, a, b - 1); }
  }

  /** Powers of two multiply by shifting. */
  lemma ShlPow2(a: nat, b: nat)
    ensures Shl(Pow2(a), b) == Pow2(a + b)
  {
    ShlOne(a);
    ShlShl(1, a, b);
    ShlOne(a + b);
  }

  lemma {:induction false} ShlOrder(a: nat, b: nat, k: nat)
    requires a <= b
    ensures Shl(a, k) <= Shl(b, k) && (a < b ==> Shl(a, k) + Pow2(k) <= Shl(b, k))
  {
    if k != 0 { ShlOrder(a, b, k - 1); }
  }

  lemma {:induction false} ShlMul(n: nat, k: nat)
    ensures Shl(n, k) == n * Pow2(k)
  {
    if k != 0 {
      ShlMul(n, k - 1);
      assert n * Pow2(k) == 2 * (n * Pow2(k - 1));
    }
  }

  /** A number is its high part and its low part. */
  lemma {:induction false} HighLow(n: nat, k: nat)
    ensures n == Shl(Shr(n, k), k) + Low(n, k) && Low(n, k) < Pow2(k)
    decreases k
  {
    if k != 0 { HighLow(n / 2, k - 1); }
  }

  /** ...and the parts are unique. */
  lemma {:induction false} HighLowUnique(q: nat, r: nat, k: nat)
    requires r < Pow2(k)
    ensures Shr(Shl(q, k) + r, k) == q && Low(Shl(q, k) + r, k) == r
  {
    if k != 0 {
      HighLowUnique(q, r / 2, k - 1);
      assert (Shl(q, k) + r) / 2 == Shl(q, k - 1) + r / 2;
    }
  }

  lemma ShrOrder(n: nat, q: nat, k: nat)
    ensures n < Shl(q, k) <==> Shr(n, k) < q
  {
    HighLow(n, k);
    if Shr(n, k) < q { ShlOrder(Shr(n, k), q, k); } else { ShlOrder(q, Shr(n, k), k); }
  }

  lemma {:induction false} LowLow(n: nat, a: nat, b: nat)
    requires b <= a
    ensures Low(Low(n, a), b) == Low(n, b)
    decreases a
  {
    if b != 0 { LowLow(n / 2, a - 1, b - 1); }
  }

  lemma {:induction false} LowOfShl(n: nat, k: nat)
    ensures Low(Shl(n, k), k) == 0
  {
    if k != 0 { LowOfShl(n, k - 1); }
  }

  /** A multiple of 2^g stays clear of the next multiple of 2^k by at least 2^g. */
  lemma {:induction false} LowGap(n: nat, g: nat, k: nat)
    requires g <= k && Low(n, g) == 0
    ensures Low(n, k) + Pow2(g) <= Pow2(k)
    decreases g
  {
    if g == 0 { HighLow(n, k); } else { LowGap(n / 2, g - 1, k - 1); }
  }

  lemma QuotientNonNegative(n: nat, d: nat)
    requires d > 0
    ensures n / d >= 0 && n % d >= 0
  {
  }

  // --- dyadic rationals ------------------------------------------------------------

  /** x * 2^q, for an exponent of either sign. Written by doubling and halving so that most
      facts about it need no non-linear arithmetic. */
  ghost function Scale(x: real, q: int): (r: real)
    decreases if q >= 0 then q else -q
  {
    if q == 0 then x
    else if q > 0 then 2.0 * Scale(x, q - 1)
    else Scale(x, q + 1) / 2.0
  }

  /** k * 2^q. */
  ghost function Dyadic(k: int, q: int): (r: real) {
    Scale(k as real, q)
  }

  lemma ScaleUp(x: real, q: int)
    ensures Scale(x, q + 1) == 2.0 * Scale(x, q)
  {
  }

  lemma {:induction false} ScaleAdd(x: real, y: real, q: int)
    ensures Scale(x + y, q) == Scale(x, q) + Scale(y, q)
    decreases if q >= 0 then q else -q
  {
    if q > 0 { ScaleAdd(x, y, q - 1); } else if q < 0 { ScaleAdd(x, y, q + 1); }
  }

  lemma {:induction false} ScaleSign(x: real, q: int)
    ensures x > 0.0 <==> Scale(x, q) > 0.0
    ensures x == 0.0 <==> Scale(x, q) == 0.0
    decreases if q >= 0 then q else -q
  {
    if q > 0 { ScaleSign(x, q - 1); } else if q < 0 { ScaleSign(x, q + 1); }
  }

  lemma ScaleLt(x: real, y: real, q: int)
    ensures x < y <==> Scale(x, q) < Scale(y, q)
    ensures x == y <==> Scale(x, q) == Scale(y, q)
  {
    ScaleAdd(x, y - x, q);
    ScaleSign(y - x, q);
  }

  lemma {:induction false} ScaleScale(x: real, q: int, r: int)
    ensures Scale(Scale(x, q), r) == Scale(x, q + r)
    decreases if r >= 0 then r else -r
  {
    if r > 0 {
      ScaleScale(x, q, r - 1);
      ScaleUp(x, q + r - 1);
    } else if r < 0 {
      ScaleScale(x, q, r + 1);
      ScaleUp(x, q + r);
    }
  }

  lemma {:induction false} ScaleTimes(x: real, q: int, y: real, xy: real)
    requires xy == x * y
    ensures Scale(x, q) * y == Scale(xy, q)
    decreases if q >= 0 then q else -q
  {
    if q > 0 {
      ScaleTimes(x, q - 1, y, xy);
      Doubling(Scale(x, q - 1), Scale(x, q), y, Scale(xy, q - 1), Scale(xy, q));
    } else if q < 0 {
      ScaleTimes(x, q + 1, y, xy);
      Halving(Scale(x, q), Scale(x, q + 1), y, Scale(xy, q), Scale(xy, q + 1));
    }
  }

  lemma Doubling(x: real, x2: real, y: real, z: real, z2: real)
    requires x2 == 2.0 * x && z2 == 2.0 * z && z == x * y
    ensures z2 == x2 * y
  {
  }

  lemma Halving(x: real, x2: real, y: real, z: real, z2: real)
    requires x2 == 2.0 * x && z2 == 2.0 * z && z2 == x2 * y
    ensures z == x * y
  {
  }

  lemma DyadicAdd(j: int, k: int, q: int)
    ensures Dyadic(j + k, q) == Dyadic(j, q) + Dyadic(k, q)
  {
    ScaleAdd(j as real, k as real, q);
  }

  lemma DyadicLt(j: int, k: int, q: int)
    ensures j < k <==> Dyadic(j, q) < Dyadic(k, q)
    ensures j == k <==> Dyadic(j, q) == Dyadic(k, q)
  {
    ScaleLt(j as real, k as real, q);
  }

  lemma DyadicSign(k: int, q: int)
    ensures k > 0 <==> Dyadic(k, q) > 0.0
    ensures k == 0 <==> Dyadic(k, q) == 0.0
  {
    ScaleSign(k as real, q);
  }

  lemma DyadicUp(k: int, q: int)
    ensures Dyadic(k, q + 1) == 2.0 * Dyadic(k, q)
  {
    ScaleUp(k as real, q);
  }

  lemma DyadicDouble(k: int, q: int)
    ensures Dyadic(2 * k, q) == Dyadic(k, q + 1)
  {
    DyadicAdd(k, k, q);
    ScaleUp(k as real, q);
  }

  /** Shifting the significand left is raising the exponent. */
  lemma {:induction false} DyadicShl(k: nat, n: nat, q: int)
    ensures Dyadic(Shl(k, n), q) == Dyadic(k, q + n)
    decreases n
  {
    if n != 0 {
      DyadicDouble(Shl(k, n - 1), q);
      DyadicShl(k, n - 1, q + 1);
    }
  }

  lemma {:induction false} DyadicPow2(n: nat, q: int)
    ensures Dyadic(Pow2(n), q) == Dyadic(1, q + n)
  {
    ShlOne(n);
    DyadicShl(1, n, q);
  }

  lemma {:induction false} DyadicMono(k: nat, q: int, r: int)
    requires q <= r
    ensures Dyadic(k, q) <= Dyadic(k, r)
    decreases r - q
  {
    if q < r {
      DyadicMono(k, q, r - 1);
      ScaleUp(k as real, r - 1);
      ScaleSign(k as real, r - 1);
    }
  }

  lemma ScaleProduct(x: real, q: int, y: real, r: int, xy: real)
    requires xy == x * y
    ensures Scale(x, q) * Scale(y, r) == Scale(xy, q + r)
  {
    hide Scale;
    assert xy == y * x;
    ScaleTimes(y, r, x, xy);
    ScaleTimes(x, q, Scale(y, r), Scale(xy, r));
    ScaleScale(xy, r, q);
  }

  /** The product of two dyadic numbers. */
  lemma DyadicProduct(j: int, q: int, k: int, r: int)
    ensures Dyadic(j, q) * Dyadic(k, r) == Dyadic(j * k, q + r)
  {
    hide Scale;
    IntProduct(j, k);
    ScaleProduct(j as real, q, k as real, r, (j * k) as real);
  }

  lemma IntProduct(j: int, k: int)
    ensures (j * k) as real == j as real * k as real
  {
  }

  // --- powers as numbers ---------------------------------------------------------------------------

  lemma Pow2Sum(a: nat, b: nat)
    ensures Pow2(a + b) == Pow2(a) * Pow2(b)
  {
    hide Pow2;
    ShlPow2(a, b);
    ShlMul(Pow2(a), b);
  }

  lemma Pow2Half(k: nat)
    requires k > 0
    ensures Pow2(k) == 2 * Pow2(k - 1)
  {
  }

  lemma Pow2Small()
    ensures Pow2(1) == 2 && Pow2(8) == 0x100 && Pow2(11) == 0x800
  {
  }

  lemma Pow2Numbers()
    ensures Pow2(8) == 0x100 && Pow2(11) == 0x800
    ensures Pow2(22) == 0x40_0000 && Pow2(23) == 0x80_0000 && Pow2(31) == 0x8000_0000 && Pow2(32) == 0x1_0000_0000
    ensures Pow2(51) == 0x8_0000_0000_0000 && Pow2(52) == 0x10_0000_0000_0000
    ensures Pow2(63) == 0x8000_0000_0000_0000 && Pow2(64) == 0x1_0000_0000_0000_0000
  {
    hide Pow2;
    Pow2Small();
    Pow2Sum(11, 11);
    Pow2Sum(22, 1);
    Pow2Sum(23, 8);
    Pow2Sum(31, 1);
    Pow2Sum(32, 8);
    Pow2Sum(40, 11);
    Pow2Sum(51, 1);
    Pow2Sum(52, 11);
    Pow2Sum(63, 1);
  }

  /** Shifting and masking are dividing. */
  lemma ShrLowAre(n: nat, k: nat, d: nat)
    requires d == Pow2(k)
    ensures d > 0 && Shr(n, k) == n / d && Low(n, k) == n % d
  {
    hide Shl, Shr, Low;
    HighLow(n, k);
    ShlMul(Shr(n, k), k);
    QuotientIs(n, d, Shr(n, k), Low(n, k));
  }
}
