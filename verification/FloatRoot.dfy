/** Square root: the integer Newton iteration and the rounding built on it. */
module FloatRoot {
  import opened Prelude
  import opened Powers
  import opened RoundingSpec
  import opened FloatFormat
  import opened Rounding
  import opened FloatOps
  import opened RootRounding

  // --- the integer root -------------------------------------------------------------------

  /** x is at least the floor of the root of n. */
  predicate AboveRoot(x: nat, n: nat) { n < (x + 1) * (x + 1) }

  predicate IsFloorRoot(x: nat, n: nat) { x * x <= n < (x + 1) * (x + 1) }

  lemma SquareOrder(a: nat, b: nat)
    requires a <= b
    ensures a * a <= b * b
  {
    IntMulOrder(a, b, a);
    IntMulOrder(a, b, b);
  }

  /** Four times a product is at most the square of the sum. */
  lemma MeanInequality(a: nat, b: nat, z: nat)
    requires z == a + b
    ensures 4 * (a * b) <= z * z
  {
    var d := a - b;
    assert d * d >= 0;
    assert z * z == a * a + 2 * (a * b) + b * b;
    assert d * d == a * a - 2 * (a * b) + b * b;
  }

  lemma QuotientBounds(n: nat, x: nat)
    requires x > 0
    ensures n / x >= 0 && n / x * x <= n < x * (n / x + 1)
  {
    var q, r := DivMod(n, x);
    assert x * (q + 1) == x * q + x;
  }

  /** One Newton step from above lands above again. */
  lemma NewtonStaysAbove(x: nat, n: nat, q: nat, y: nat)
    requires x > 0 && q == n / x && y == (x + q) / 2
    ensures AboveRoot(y, n)
  {
    QuotientBounds(n, x);
    MeanInequality(x, q + 1, x + q + 1);
    SquareOrder(x + q + 1, 2 * (y + 1));
    Quadruple(y + 1);
  }

  lemma Quadruple(a: nat)
    ensures 2 * a * (2 * a) == 4 * (a * a)
  {
  }

  /** The quotient stays close to the estimate, so the sum cannot overflow. */
  lemma QuotientNear(x: nat, n: nat)
    requires x > 0 && AboveRoot(x, n)
    ensures 0 <= n / x <= x + 2
  {
    var q := n / x;
    QuotientBounds(n, x);
    Expand(x);
    if q >= x + 3 { IntMulOrder(x + 3, q, x); }
  }

  lemma Expand(x: nat)
    ensures (x + 1) * (x + 1) == x * x + 2 * x + 1 && (x + 3) * x == x * x + 3 * x
  {
  }

  lemma AtRoot(x: nat, n: nat)
    requires x > 0 && AboveRoot(x, n) && (x + n / x) / 2 >= x
    ensures IsFloorRoot(x, n)
  {
    var q := n / x;
    QuotientBounds(n, x);
    IntMulOrder(x, q, x);
  }

  lemma StartsAbove(n: nat, half: nat)
    requires n > 0 && half == (Msb(n) + 2) / 2
    ensures AboveRoot(Pow2(half), n)
  {
    var h := Pow2(half);
    ShlPow2(half, half);
    ShlMul(h, half);
    Pow2Mono(Msb(n) + 1, half + half);
    SquareOrder(h, h + 1);
  }

  lemma PositiveRoot(x: nat, n: nat)
    requires n > 0 && AboveRoot(x, n)
    ensures x > 0
  {
  }

  /** The floor of the square root of a 128-bit number, by Newton's method from above. */
  method Isqrt(n: nat) returns (x: nat)
    requires n < Pow2(128)
    ensures IsFloorRoot(x, n)
  {
    hide AboveRoot, Pow2;
    if n == 0 {
      return 0;
    }
    hide IsFloorRoot;
    var half := (Msb(n) + 2) / 2;
    StartsAbove(n, half);
    MsbBelow(n, 128);
    Pow2Mono(half, 64);
    x := Pow2(half);
    while true
      invariant 0 < x <= Pow2(64) && AboveRoot(x, n)
      decreases x
    {
      QuotientNear(x, n);
      assert x + n / x <= 2 * Pow2(64) + 2;  // no overflow of the 128-bit sum
      var y := (x + n / x) / 2;
      NewtonStaysAbove(x, n, n / x, y);
      PositiveRoot(y, n);
      if y >= x {
        AtRoot(x, n);
        return;
      }
      x := y;
    }
  }

  // --- the rounded root ---------------------------------------------------------------------

  /** The significand brought up to at least 53 bits by an even shift. */
  function AtLeast53(sig: nat, exp: int): (nat, int)
    requires sig > 0
  {
    var bits := Msb(sig) + 1;
    if bits < 53 then
      var shift := (53 - bits + 1) / 2 * 2;
      (Shl(sig, shift), exp - shift)
    else
      (sig, exp)
  }

  /** ...and then the exponent made even. */
  function EvenScaled(sig: nat, exp: int): (nat, int)
    requires sig > 0
  {
    var (s, e) := AtLeast53(sig, exp);
    if e % 2 != 0 then (Shl(s, 1), e - 1) else (s, e)
  }

  lemma AtLeast53Keeps(sig: nat, exp: int)
    requires 0 < sig && Msb(sig) <= 52
    ensures var (s, e) := AtLeast53(sig, exp);
            Dyadic(s, e) == Dyadic(sig, exp) && Pow2(52) <= s < Pow2(54)
  {
    hide Pow2, Dyadic, Shl, Msb;
    var bits := Msb(sig) + 1;
    if bits < 53 {
      var shift := (53 - bits + 1) / 2 * 2;
      assert 52 <= Msb(sig) + shift <= 53;
      ShlRange(sig, Msb(sig), shift);
      DyadicShl(sig, shift, exp - shift);
      Pow2Mono(52, Msb(sig) + shift);
      Pow2Mono(Msb(sig) + 1 + shift, 54);
    } else {
      Pow2Mono(53, 54);
    }
  }

  lemma EvenScaledKeeps(sig: nat, exp: int)
    requires 0 < sig && Msb(sig) <= 52
    ensures var (s, e) := EvenScaled(sig, exp);
            e % 2 == 0 && Dyadic(s, e) == Dyadic(sig, exp) && Pow2(52) <= s < Pow2(55)
  {
    hide Pow2, Dyadic, Shl, AtLeast53;
    var (s, e) := AtLeast53(sig, exp);
    AtLeast53Keeps(sig, exp);
    ShlPow2(54, 1);
    ShlPow2(52, 1);
    ShlOrder(s, Pow2(54), 1);
    ShlOrder(Pow2(52), s, 1);
    Pow2Mono(52, 53);
    Pow2Mono(54, 55);
    DyadicShl(s, 1, e - 1);
  }

  /** The floor root of the scaled operand locates the real root among multiples of 2^h. */
  lemma RootCell(x: real, r: nat, n: nat, h: int)
    requires x == Dyadic(n, 2 * h) && IsFloorRoot(r, n)
    ensures Cell(x, r, r * r != n, h)
  {
    hide Dyadic;
    DyadicProduct(r, h, r, h);
    DyadicProduct(r + 1, h, r + 1, h);
    DyadicLt(r * r, n, 2 * h);
    DyadicLt(n, (r + 1) * (r + 1), 2 * h);
  }

  lemma RootWide(n: nat, r: nat, k: nat)
    requires Pow2(k + k) <= n && IsFloorRoot(r, n)
    ensures r >= Pow2(k)
  {
    hide Pow2;
    var h := Pow2(k);
    ShlPow2(k, k);
    ShlMul(h, k);
    if r < h { SquareOrder(r + 1, h); }
  }

  /** What the square root of a pattern must be: for a positive number, the correct rounding of its
      root. */
  ghost predicate RootSpec(f: Fmt, rm: Rm, bits: nat, out: Out) {
    var a := Unpack(bits, f);
    match a.class_
    case Nan(signalling) => out == NanOut(f, signalling)
    case Zero => out == Out(bits, NO_FLAGS)
    case Inf => out == if a.sign then Invalid(f) else Out(InfBits(f, false), NO_FLAGS)
    case Finite(sig, exp) =>
      if a.sign then out == Invalid(f)
      else CorrectRoot(f, rm, Dyadic(sig, exp), out)
  }

  lemma RootRounds(t: Width, r: nat, n: nat, e: int, k: nat, f: Fmt, rm: Rm, x: real)
    requires e % 2 == 0 && IsFloorRoot(r, n) && x == Dyadic(n, e - 2 * k)
    requires Pow2(Prec(f) + Prec(f)) <= n
    ensures CorrectRoot(f, rm, x, RoundPack(t, false, e / 2 - k, r, r * r != n, f, rm))
  {
    hide Dyadic, CorrectResult, CorrectRoot, RoundPack, Pow2, IsFloorRoot, Cell, Stand, Denotes;
    var h, sticky := e / 2 - k, r * r != n;
    assert 2 * h == e - 2 * k;
    RootCell(x, r, n, h);
    RootWide(n, r, Prec(f));
    StandDenotes(r, sticky, h);
    RoundPackCorrect(t, false, h, r, sticky, f, rm, Stand(r, sticky, h));
    StandIsRoot(f, rm, x, r, sticky, h, RoundPack(t, false, h, r, sticky, f, rm));
  }

  lemma ScaledWidth(s: nat, f: Fmt)
    requires Pow2(52) <= s < Pow2(55)
    ensures Pow2(Prec(f) + Prec(f)) <= Shl(s, 72) < Pow2(128)
  {
    hide Pow2, Shl;
    ShlPow2(52, 72);
    ShlPow2(55, 72);
    ShlOrder(Pow2(52), s, 72);
    ShlOrder(s, Pow2(55), 72);
    Pow2Mono(Prec(f) + Prec(f), 124);
    Pow2Mono(127, 128);
  }

  lemma FiniteMsb(f: Fmt, bits: nat)
    ensures var c := Unpack(bits, f).class_; c.Finite? ==> 0 < c.sig && Msb(c.sig) <= 52
  {
    hide Unpack, Pow2;
    FiniteIsCanonical(f, bits);
    var c := Unpack(bits, f).class_;
    if c.Finite? { MsbBelow(c.sig, Prec(f)); }
  }

  method Sqrt(bits: nat, f: Fmt, rm: Rm) returns (out: Out)
    ensures RootSpec(f, rm, bits, out)
  {
    hide Dyadic, CorrectRoot, RoundPack, Pow2, Shl, IsFloorRoot, EvenScaled, Unpack;
    var a := Unpack(bits, f);
    match a.class_
    case Nan(signalling) => out := NanOut(f, signalling);
    case Zero => out := Out(bits, NO_FLAGS);
    case Inf => out := if a.sign then Invalid(f) else Out(InfBits(f, false), NO_FLAGS);
    case Finite(sig, exp) =>
      if a.sign {
        out := Invalid(f);
      } else {
        FiniteMsb(f, bits);
        var (s, e) := EvenScaled(sig, exp);
        EvenScaledKeeps(sig, exp);
        ScaledWidth(s, f);
        var scaled := Shl(s, 72);
        var r := Isqrt(scaled);
        var exact := r * r == scaled;
        out := RoundPack(T, false, e / 2 - 36, r, !exact, f, rm);
        DyadicShl(s, 72, e - 72);
        RootRounds(T, r, scaled, e, 36, f, rm, Dyadic(sig, exp));
      }
  }
}
