/** Addition, subtraction, multiplication, division and fused multiply-add on bit patterns,
    each proved to be the correct rounding of the exact real result. */
module FloatOps {
  import opened Powers
  import opened RoundingSpec
  import opened FloatFormat
  import opened Rounding
  import opened FloatAdd

  // --- shared pieces ------------------------------------------------------------------

  const INVALID := NO_FLAGS.(nv := true)

  function Invalid(f: Fmt): Out { Out(CanonicalNan(f), INVALID) }

  function NanOut(f: Fmt, signalling: bool): Out {
    Out(CanonicalNan(f), if signalling then INVALID else NO_FLAGS)
  }

  predicate IsSnan(c: Class) { c.Nan? && c.signalling }

  /** x + (-x) is +0, except in round-down where it is -0; equal signs are kept. */
  function ZeroSumSign(a: bool, b: bool, rm: Rm): bool {
    if a == b then a else rm == Rdn
  }

  function FlipSign(f: Fmt, bits: nat): nat
    requires IsPattern(f, bits)
  {
    if bits >= SignBit(f) then bits - SignBit(f) else bits + SignBit(f)
  }

  /** Add two non-zero exact values and round once. */
  function RoundSum(t: Width, a: Signed, b: Signed, f: Fmt, rm: Rm): Out
    requires a.sig < Pow2(t - 10) && b.sig < Pow2(t - 10)
  {
    match AddExact(t, a, b)
    case ExactZero => Out(ZeroBits(f, rm == Rdn), NO_FLAGS)
    case Sum(sign, sig, exp, sticky) => RoundPack(t, sign, exp, sig, sticky, f, rm)
  }

  // --- the operations --------------------------------------------------------------------

  function AddSigned(x: nat, y: nat, negate: bool, f: Fmt, rm: Rm): Out
    requires IsPattern(f, x) && IsPattern(f, y)
  {
    var a := Unpack(x, f);
    var b0 := Unpack(y, f);
    var b := b0.(sign := b0.sign != negate);
    if a.class_.Nan? || b.class_.Nan? then
      NanOut(f, IsSnan(a.class_) || IsSnan(b.class_))
    else match (a.class_, b.class_)
      case (Inf, Inf) => if a.sign != b.sign then Invalid(f) else Out(InfBits(f, a.sign), NO_FLAGS)
      case (Inf, _) => Out(InfBits(f, a.sign), NO_FLAGS)
      case (_, Inf) => Out(InfBits(f, b.sign), NO_FLAGS)
      case (Zero, Zero) => Out(ZeroBits(f, ZeroSumSign(a.sign, b.sign, rm)), NO_FLAGS)
      case (Zero, Finite(_, _)) => Out(if negate then FlipSign(f, y) else y, NO_FLAGS)
      case (Finite(_, _), Zero) => Out(x, NO_FLAGS)
      case (Finite(sa, ea), Finite(sb, eb)) =>
        SigFits(f, x, T);
        SigFits(f, y, T);
        RoundSum(T, Signed(a.sign, sa, ea), Signed(b.sign, sb, eb), f, rm)
  }

  /** The product of two finite operands, exactly. */
  function Product(a: Unpacked, b: Unpacked): Signed
    requires a.class_.Finite? && b.class_.Finite?
  {
    Signed(a.sign != b.sign, a.class_.sig * b.class_.sig, a.class_.exp + b.class_.exp)
  }

  function Mul(x: nat, y: nat, f: Fmt, rm: Rm): Out {
    var a, b := Unpack(x, f), Unpack(y, f);
    var sign := a.sign != b.sign;
    if a.class_.Nan? || b.class_.Nan? then
      NanOut(f, IsSnan(a.class_) || IsSnan(b.class_))
    else match (a.class_, b.class_)
      case (Inf, Zero) => Invalid(f)
      case (Zero, Inf) => Invalid(f)
      case (Inf, _) => Out(InfBits(f, sign), NO_FLAGS)
      case (_, Inf) => Out(InfBits(f, sign), NO_FLAGS)
      case (Zero, _) => Out(ZeroBits(f, sign), NO_FLAGS)
      case (_, Zero) => Out(ZeroBits(f, sign), NO_FLAGS)
      case (Finite(_, _), Finite(_, _)) =>
        var p := Product(a, b);
        RoundPack(T, p.sign, p.exp, p.sig, false, f, rm)
  }

  /** The significand moved up to bit 63, and its exponent. */
  function ToTop(sig: nat, exp: int, top: nat): (nat, int)
    requires 0 < sig < Pow2(top + 1)
  {
    MsbBelow(sig, top + 1);
    (Shl(sig, top - Msb(sig)), exp - (top - Msb(sig)))
  }

  /** The quotient of two non-zero magnitudes: (top + 1) more bits than the divisor needs,
      the remainder folded into the sticky bit. */
  function RoundQuotient(t: Width, sign: bool, sa: nat, ea: int, sb: nat, eb: int, top: nat, f: Fmt, rm: Rm): Out
    requires 0 < sa < Pow2(top + 1) && 0 < sb < Pow2(top + 1)
  {
    var (na, da) := ToTop(sa, ea, top);
    var (nb, db) := ToTop(sb, eb, top);
    ToTopRange(sb, eb, top);
    var num := Shl(na, top + 1);
    QuotientNonNegative(num, nb);
    RoundPack(t, sign, da - db - (top + 1), num / nb, num % nb != 0, f, rm)
  }

  function Div(x: nat, y: nat, f: Fmt, rm: Rm): Out {
    var a, b := Unpack(x, f), Unpack(y, f);
    var sign := a.sign != b.sign;
    if a.class_.Nan? || b.class_.Nan? then
      NanOut(f, IsSnan(a.class_) || IsSnan(b.class_))
    else match (a.class_, b.class_)
      case (Inf, Inf) => Invalid(f)
      case (Zero, Zero) => Invalid(f)
      case (Inf, _) => Out(InfBits(f, sign), NO_FLAGS)
      case (_, Inf) => Out(ZeroBits(f, sign), NO_FLAGS)
      case (Zero, _) => Out(ZeroBits(f, sign), NO_FLAGS)
      case (_, Zero) => Out(InfBits(f, sign), NO_FLAGS.(dz := true))
      case (Finite(sa, ea), Finite(sb, eb)) =>
        SigFitsTop(f, x, 63);
        SigFitsTop(f, y, 63);
        RoundQuotient(T, sign, sa, ea, sb, eb, 63, f, rm)
  }

  /** a * b + c with a single rounding. */
  function Fma(x: nat, y: nat, z: nat, f: Fmt, rm: Rm): Out {
    var a, b, c := Unpack(x, f), Unpack(y, f), Unpack(z, f);
    var psign := a.sign != b.sign;
    if (a.class_.Inf? && b.class_.Zero?) || (a.class_.Zero? && b.class_.Inf?) then
      Invalid(f)
    else if a.class_.Nan? || b.class_.Nan? || c.class_.Nan? then
      NanOut(f, IsSnan(a.class_) || IsSnan(b.class_) || IsSnan(c.class_))
    else if a.class_.Inf? || b.class_.Inf? then
      if c.class_.Inf? && c.sign != psign then Invalid(f) else Out(InfBits(f, psign), NO_FLAGS)
    else if c.class_.Inf? then
      Out(InfBits(f, c.sign), NO_FLAGS)
    else match (a.class_, b.class_, c.class_)
      case (Finite(_, _), Finite(_, _), Zero) =>
        var p := Product(a, b);
        RoundPack(T, p.sign, p.exp, p.sig, false, f, rm)
      case (Finite(_, _), Finite(_, _), Finite(sc, ec)) =>
        SigFits(f, z, T);
        ProductFits(f, x, y, T);
        RoundSum(T, Product(a, b), Signed(c.sign, sc, ec), f, rm)
      case (_, _, Zero) => Out(ZeroBits(f, ZeroSumSign(psign, c.sign, rm)), NO_FLAGS)
      case _ => Out(z, NO_FLAGS)
  }

  // --- operand bounds --------------------------------------------------------------------

  lemma SigFits(f: Fmt, bits: nat, t: Width)
    ensures var c := Unpack(bits, f).class_;
            c.Finite? ==> 0 < c.sig < Pow2(t - 10) && c.sig < Pow2(Prec(f))
  {
    FiniteIsCanonical(f, bits);
    Pow2Mono(Prec(f), t - 10);
  }

  lemma SigFitsTop(f: Fmt, bits: nat, top: nat)
    requires top + 1 >= Prec(f)
    ensures var c := Unpack(bits, f).class_;
            c.Finite? ==> 0 < c.sig < Pow2(top + 1)
  {
    FiniteIsCanonical(f, bits);
    Pow2Mono(Prec(f), top + 1);
  }

  lemma ProductFits(f: Fmt, x: nat, y: nat, t: Width)
    requires t >= 120
    ensures var a, b := Unpack(x, f), Unpack(y, f);
            a.class_.Finite? && b.class_.Finite? ==> 0 < Product(a, b).sig < Pow2(t - 10)
  {
    hide Unpack;
    var c, d := Unpack(x, f).class_, Unpack(y, f).class_;
    if c.Finite? && d.Finite? {
      SigFits(f, x, t);
      SigFits(f, y, t);
      ProductBelow(c.sig, d.sig, Pow2(Prec(f)));
      ShlPow2(Prec(f), Prec(f));
      ShlMul(Pow2(Prec(f)), Prec(f));
      Pow2Mono(2 * Prec(f), t - 10);
    }
  }

  lemma ProductBelow(a: nat, b: nat, p: nat)
    requires 0 < a < p && 0 < b < p
    ensures 0 < a * b < p * p
  {
    assert a * b < p * b;
    assert p * b < p * p;
  }

  lemma ToTopRange(sig: nat, exp: int, top: nat)
    requires 0 < sig < Pow2(top + 1)
    ensures Pow2(top) <= ToTop(sig, exp, top).0 < Pow2(top + 1)
    ensures Dyadic(ToTop(sig, exp, top).0, ToTop(sig, exp, top).1) == Dyadic(sig, exp)
  {
    MsbBelow(sig, top + 1);
    var g := top - Msb(sig);
    ShlRange(sig, Msb(sig), g);
    DyadicShl(sig, g, exp - g);
  }

  // --- exact results -----------------------------------------------------------------------

  /** A value that is already representable is delivered unchanged and without flags. */
  lemma ExactIsCorrect(f: Fmt, rm: Rm, bits: nat)
    requires IsPattern(f, bits) && Unpack(bits, f).class_.Finite?
    ensures var u := Unpack(bits, f);
            CorrectResult(f, rm, u.sign, Mag(u.class_), Out(bits, NO_FLAGS))
  {
    var u := Unpack(bits, f);
    var v, p, r := Mag(u.class_), Prec(f), Bounded(Qmin(f));
    FiniteIsCanonical(f, bits);
    assert FloatAt(p, r, v, u.class_.sig, u.class_.exp);
    assert RoundsTo(p, r, rm, u.sign, v, v);
    FiniteBelowMax(f, bits);
  }

  lemma FiniteBelowMax(f: Fmt, bits: nat)
    requires Unpack(bits, f).class_.Finite?
    ensures Mag(Unpack(bits, f).class_) <= MaxFinite(f)
  {
    hide Shr, Low, Shl, Dyadic, SignField, Pow2;
    ExpBounds(f);
    FiniteIsCanonical(f, bits);
    HighLow(Shr(bits, f.fracBits), f.expBits);
    var c, top := Unpack(bits, f).class_, Bias(f) - f.fracBits;
    assert c.exp <= top && c.sig <= Pow2(Prec(f)) - 1;
    hide Unpack;
    DyadicLt(Pow2(Prec(f)) - 1, c.sig, top);
    DyadicMono(c.sig, c.exp, top);
  }

  lemma FlipSignFlips(f: Fmt, bits: nat)
    requires IsPattern(f, bits)
    ensures IsPattern(f, FlipSign(f, bits))
    ensures var u := Unpack(bits, f); Unpack(FlipSign(f, bits), f) == u.(sign := !u.sign)
  {
    FieldsPack(f, bits);
    var e, frac := ExpField(f, bits), FracField(f, bits);
    MagnitudeBits(f, e, frac);
    PackFields(f, !SignField(f, bits), e, frac);
  }

  // --- addition ----------------------------------------------------------------------------

  lemma RoundSumCorrect(t: Width, a: Signed, b: Signed, f: Fmt, rm: Rm)
    requires 0 < a.sig < Pow2(t - 10) && 0 < b.sig < Pow2(t - 10)
    ensures var s, out := Real(a) + Real(b), RoundSum(t, a, b, f, rm);
            if s != 0.0 then CorrectResult(f, rm, s < 0.0, Abs(s), out)
            else out == Out(ZeroBits(f, rm == Rdn), NO_FLAGS)
  {
    hide CorrectResult, RoundPack, Dyadic, AddExact, Denotes;
    AddExactCorrect(t, a, b);
    match AddExact(t, a, b)
    case ExactZero =>
    case Sum(sign, sig, exp, sticky) =>
      Pow2Mono(Prec(f), t - 2);
      RoundPackCorrect(t, sign, exp, sig, sticky, f, rm, Abs(Real(a) + Real(b)));
  }

  /** A sum that is exactly zero is a zero without flags: negative when both terms are, and when their
      signs differ only in round-down (IEEE 754-2019, section 6.3). */
  ghost predicate IsExactZero(f: Fmt, rm: Rm, a: bool, b: bool, out: Out) {
    && IsPattern(f, out.bits) && out.flags == NO_FLAGS
    && Unpack(out.bits, f) == Unpacked((a && b) || (rm == Rdn && (a || b)), Zero)
  }

  lemma ZeroDelivered(f: Fmt, rm: Rm, a: bool, b: bool)
    ensures IsExactZero(f, rm, a, b, Out(ZeroBits(f, ZeroSumSign(a, b, rm)), NO_FLAGS))
  {
    hide ZeroBits, Unpack, IsPattern;
    ZeroPattern(f, ZeroSumSign(a, b, rm));
  }

  /** What addition of two numbers must deliver. */
  ghost predicate SumSpec(f: Fmt, rm: Rm, a: Unpacked, b: Unpacked, out: Out)
    requires IsNumber(a.class_) && IsNumber(b.class_)
  {
    var s := Value(a) + Value(b);
    if s != 0.0 then CorrectResult(f, rm, s < 0.0, Abs(s), out)
    else IsExactZero(f, rm, a.sign, b.sign, out)
  }

  lemma FinitePositive(f: Fmt, bits: nat)
    ensures var c := Unpack(bits, f).class_; c.Finite? ==> Mag(c) > 0.0
  {
    FiniteIsCanonical(f, bits);
    var c := Unpack(bits, f).class_;
    if c.Finite? { DyadicSign(c.sig, c.exp); }
  }

  /** Addition and subtraction of any two numbers, zeros and subnormals included, are the
      single correct rounding of the exact sum, with the IEEE sign for an exact zero. */
  lemma AddCorrect(x: nat, y: nat, negate: bool, f: Fmt, rm: Rm)
    requires IsPattern(f, x) && IsPattern(f, y)
    requires IsNumber(Unpack(x, f).class_) && IsNumber(Unpack(y, f).class_)
    ensures var b := Unpack(y, f);
            SumSpec(f, rm, Unpack(x, f), b.(sign := b.sign != negate), AddSigned(x, y, negate, f, rm))
  {
    hide Unpack, CorrectResult, RoundSum, FlipSign, ZeroBits, SumSpec;
    var a, b := Unpack(x, f), Unpack(y, f);
    var b' := b.(sign := b.sign != negate);
    if a.class_.Zero? && b.class_.Zero? {
      SumOfZeros(f, rm, a, b');
    } else if a.class_.Zero? {
      var z := if negate then FlipSign(f, y) else y;
      FlipSignFlips(f, y);
      FinitePositive(f, z);
      ExactIsCorrect(f, rm, z);
      SumWithZero(f, rm, a, b', Out(z, NO_FLAGS));
    } else if b.class_.Zero? {
      FinitePositive(f, x);
      ExactIsCorrect(f, rm, x);
      SumWithZero(f, rm, a, b', Out(x, NO_FLAGS));
    } else {
      SigFits(f, x, T);
      SigFits(f, y, T);
      SumOfFinite(T, a, b', f, rm);
    }
  }

  lemma SumOfZeros(f: Fmt, rm: Rm, a: Unpacked, b: Unpacked)
    requires a.class_.Zero? && b.class_.Zero?
    ensures SumSpec(f, rm, a, b, Out(ZeroBits(f, ZeroSumSign(a.sign, b.sign, rm)), NO_FLAGS))
  {
    hide CorrectResult, ZeroBits, IsExactZero;
    ZeroDelivered(f, rm, a.sign, b.sign);
  }

  /** The exact sum of a zero and a nonzero number is that number. */
  lemma SumWithZero(f: Fmt, rm: Rm, a: Unpacked, b: Unpacked, out: Out)
    requires (a.class_.Zero? && b.class_.Finite?) || (a.class_.Finite? && b.class_.Zero?)
    requires var u := if a.class_.Zero? then b else a;
             Mag(u.class_) > 0.0 && CorrectResult(f, rm, u.sign, Mag(u.class_), out)
    ensures SumSpec(f, rm, a, b, out)
  {
    hide CorrectResult, ZeroBits, Dyadic, IsExactZero;
  }

  lemma SumOfFinite(t: Width, a: Unpacked, b: Unpacked, f: Fmt, rm: Rm)
    requires a.class_.Finite? && b.class_.Finite?
    requires 0 < a.class_.sig < Pow2(t - 10) && 0 < b.class_.sig < Pow2(t - 10)
    ensures var out := RoundSum(t, Signed(a.sign, a.class_.sig, a.class_.exp),
                                Signed(b.sign, b.class_.sig, b.class_.exp), f, rm);
            SumSpec(f, rm, a, b, out)
  {
    hide CorrectResult, RoundSum, ZeroBits, Dyadic, IsExactZero;
    ZeroDelivered(f, rm, a.sign, b.sign);
    DyadicSign(a.class_.sig, a.class_.exp);
    DyadicSign(b.class_.sig, b.class_.exp);
    RoundSumCorrect(t, Signed(a.sign, a.class_.sig, a.class_.exp),
                    Signed(b.sign, b.class_.sig, b.class_.exp), f, rm);
  }

  // --- multiplication ------------------------------------------------------------------------

  lemma ProductMagnitude(a: Unpacked, b: Unpacked, exact: real)
    requires a.class_.Finite? && b.class_.Finite? && a.class_.sig > 0 && b.class_.sig > 0
    requires exact == Mag(a.class_) * Mag(b.class_)
    ensures var p := Product(a, b);
            p.sig > 0 && p.sign == (a.sign != b.sign) && exact == Dyadic(p.sig, p.exp)
  {
    hide Dyadic;
    DyadicProduct(a.class_.sig, a.class_.exp, b.class_.sig, b.class_.exp);
  }

  /** What an operation with an exact result of this sign and magnitude must deliver. */
  ghost predicate MagnitudeSpec(f: Fmt, rm: Rm, sign: bool, v: real, out: Out) {
    if v == 0.0 then out == Out(ZeroBits(f, sign), NO_FLAGS) else CorrectResult(f, rm, sign, v, out)
  }

  /** The product of any two numbers, zeros included, is correctly rounded. */
  lemma MulCorrect(x: nat, y: nat, f: Fmt, rm: Rm, exact: real)
    requires IsNumber(Unpack(x, f).class_) && IsNumber(Unpack(y, f).class_)
    requires exact == Mag(Unpack(x, f).class_) * Mag(Unpack(y, f).class_)
    ensures MagnitudeSpec(f, rm, Unpack(x, f).sign != Unpack(y, f).sign, exact, Mul(x, y, f, rm))
  {
    hide RoundPack, Unpack, CorrectResult, Product, Dyadic, ZeroBits;
    var a, b := Unpack(x, f), Unpack(y, f);
    if a.class_.Finite? && b.class_.Finite? {
      MulFinite(x, y, f, rm, exact);
    } else {
      ZeroProduct(Mag(a.class_), Mag(b.class_), exact);
    }
  }

  lemma MulFinite(x: nat, y: nat, f: Fmt, rm: Rm, exact: real)
    requires Unpack(x, f).class_.Finite? && Unpack(y, f).class_.Finite?
    requires exact == Mag(Unpack(x, f).class_) * Mag(Unpack(y, f).class_)
    ensures exact > 0.0
    ensures CorrectResult(f, rm, Unpack(x, f).sign != Unpack(y, f).sign, exact, Mul(x, y, f, rm))
  {
    hide RoundPack, Unpack, CorrectResult, Product, Mag, Dyadic;
    FiniteIsCanonical(f, x);
    FiniteIsCanonical(f, y);
    var p := Product(Unpack(x, f), Unpack(y, f));
    ProductMagnitude(Unpack(x, f), Unpack(y, f), exact);
    DyadicSign(p.sig, p.exp);
    RoundPackCorrect(T, p.sign, p.exp, p.sig, false, f, rm, exact);
  }

  // --- division --------------------------------------------------------------------------------

  lemma MulLess(a: real, b: real, w: real)
    requires a < b && w > 0.0
    ensures a * w < b * w
  {
  }

  /** Where x / y lies between two multiples of 2^e, judged by multiplying back. */
  lemma QuotientDenotes(x: real, w: real, v: real, q: nat, sticky: bool, e: int, lo: real, hi: real)
    requires w > 0.0 && v * w == x
    requires lo == Dyadic(q, e) * w && hi == Dyadic(q + 1, e) * w
    requires if sticky then lo < x < hi else x == lo
    ensures Denotes(v, q, sticky, e)
  {
    hide Dyadic;
    var a, b := Dyadic(q, e), Dyadic(q + 1, e);
    if v < a { MulLess(v, a, w); }
    if a < v { MulLess(a, v, w); }
    if b < v { MulLess(b, v, w); }
  }

  lemma QuotientExact(num: nat, nb: nat, q: nat, e: int, eb: int)
    requires nb > 0 && q == num / nb
    ensures Dyadic(q, e) * Dyadic(nb, eb) <= Dyadic(num, e + eb) < Dyadic(q + 1, e) * Dyadic(nb, eb)
    ensures num % nb == 0 <==> Dyadic(q, e) * Dyadic(nb, eb) == Dyadic(num, e + eb)
  {
    hide Dyadic;
    var r, lo, hi := num % nb, q * nb, (q + 1) * nb;
    assert num == lo + r && hi == lo + nb;
    DyadicProduct(q, e, nb, eb);
    DyadicProduct(q + 1, e, nb, eb);
    DyadicLt(lo, num, e + eb);
    DyadicLt(num, hi, e + eb);
  }

  lemma RoundQuotientCorrect(t: Width, sign: bool, sa: nat, ea: int, sb: nat, eb: int, top: nat, f: Fmt, rm: Rm,
                             v: real)
    requires 0 < sa < Pow2(top + 1) && 0 < sb < Pow2(top + 1) && Prec(f) <= top
    requires v * Dyadic(sb, eb) == Dyadic(sa, ea)
    ensures CorrectResult(f, rm, sign, v, RoundQuotient(t, sign, sa, ea, sb, eb, top, f, rm))
  {
    hide RoundPack, CorrectResult, Dyadic, Shl, ToTop;
    var (na, da) := ToTop(sa, ea, top);
    var (nb, db) := ToTop(sb, eb, top);
    ToTopRange(sa, ea, top);
    ToTopRange(sb, eb, top);
    var num, e := Shl(na, top + 1), da - db - (top + 1);
    QuotientNonNegative(num, nb);
    var q := num / nb;
    DyadicShl(na, top + 1, e + db);
    QuotientExact(num, nb, q, e, db);
    DyadicSign(nb, db);
    QuotientDenotes(Dyadic(sa, ea), Dyadic(nb, db), v, q, num % nb != 0, e,
                    Dyadic(q, e) * Dyadic(nb, db), Dyadic(q + 1, e) * Dyadic(nb, db));
    QuotientWide(na, nb, top);
    Pow2Mono(Prec(f), top);
    RoundPackCorrect(t, sign, e, q, num % nb != 0, f, rm, v);
  }

  /** Both operands having their top bit at the same place, the quotient has top + 1 bits or
      one more, so the remainder stays below the half bit. */
  lemma QuotientWide(na: nat, nb: nat, top: nat)
    requires Pow2(top) <= na < Pow2(top + 1) && Pow2(top) <= nb < Pow2(top + 1)
    ensures Pow2(top) <= Shl(na, top + 1) / nb < Pow2(top + 2)
  {
    assert Pow2(top + 1) == 2 * Pow2(top) && Pow2(top + 2) == 2 * Pow2(top + 1);
    hide Pow2, Shl;
    var num, A, B := Shl(na, top + 1), Pow2(top), Pow2(top + 1);
    ShlMul(na, top + 1);
    Quotient(num, nb);
    WideArith(na, nb, num / nb, A, B);
  }

  lemma Quotient(num: nat, d: nat)
    requires d > 0
    ensures num / d * d <= num < (num / d + 1) * d
  {
  }

  lemma WideArith(na: nat, nb: nat, q: int, A: nat, B: nat)
    requires B == 2 * A && A <= na < B && A <= nb < B
    requires q * nb <= na * B < (q + 1) * nb
    ensures A <= q < 2 * B
  {
    WideLow(na, nb, q, A, B, na * B, (q + 1) * nb);
    WideHigh(na, nb, q, A, B, q * nb, na * B);
  }

  lemma WideLow(na: nat, nb: nat, q: int, A: nat, B: nat, num: int, over: int)
    requires A <= na && nb < B && num == na * B && over == (q + 1) * nb && num < over
    ensures A <= q
  {
    if q < A {
      IntMulOrder(q + 1, A, nb);
      IntMulOrder(nb, B, A);
      IntMulOrder(A, na, B);
    }
  }

  lemma WideHigh(na: nat, nb: nat, q: int, A: nat, B: nat, under: int, num: int)
    requires B == 2 * A && na < B && A <= nb && under == q * nb && num == na * B && under <= num
    ensures q < 2 * B
  {
    IntMulOrder(A, nb, 2 * B);
    IntMulOrder(na + 1, B, B);
    assert 2 * B * A == B * B && (na + 1) * B == num + B;
    if q >= 2 * B { IntMulOrder(2 * B, q, nb); }
  }

  lemma IntMulOrder(a: int, b: int, c: int)
    requires a <= b && c >= 0
    ensures a * c <= b * c && c * a <= c * b
  {
  }

  /** The quotient of any number by a finite non-zero one is correctly rounded. */
  lemma DivCorrect(x: nat, y: nat, f: Fmt, rm: Rm, exact: real)
    requires IsNumber(Unpack(x, f).class_) && Unpack(y, f).class_.Finite?
    requires exact * Mag(Unpack(y, f).class_) == Mag(Unpack(x, f).class_)
    ensures MagnitudeSpec(f, rm, Unpack(x, f).sign != Unpack(y, f).sign, exact, Div(x, y, f, rm))
  {
    hide RoundQuotient, Unpack, CorrectResult, Pow2, Dyadic, ZeroBits, Mag;
    var a, b := Unpack(x, f), Unpack(y, f);
    FinitePositive(f, x);
    FinitePositive(f, y);
    ZeroQuotient(exact, Mag(b.class_), Mag(a.class_));
    if a.class_.Finite? {
      DivFinite(x, y, f, rm, exact);
    } else {
      ZeroMag(a.class_);
    }
  }

  lemma ZeroMag(c: Class)
    requires IsNumber(c)
    ensures c.Zero? ==> Mag(c) == 0.0
  {
  }

  lemma ZeroQuotient(q: real, d: real, n: real)
    requires q * d == n && d > 0.0
    ensures q == 0.0 <==> n == 0.0
  {
  }

  lemma DivFinite(x: nat, y: nat, f: Fmt, rm: Rm, exact: real)
    requires Unpack(x, f).class_.Finite? && Unpack(y, f).class_.Finite?
    requires exact * Mag(Unpack(y, f).class_) == Mag(Unpack(x, f).class_)
    ensures CorrectResult(f, rm, Unpack(x, f).sign != Unpack(y, f).sign, exact, Div(x, y, f, rm))
  {
    hide RoundQuotient, Unpack, CorrectResult, Pow2, Dyadic;
    var a, b := Unpack(x, f), Unpack(y, f);
    SigFitsTop(f, x, 63);
    SigFitsTop(f, y, 63);
    RoundQuotientCorrect(T, a.sign != b.sign, a.class_.sig, a.class_.exp, b.class_.sig, b.class_.exp, 63, f, rm, exact);
  }

  // --- fused multiply-add ------------------------------------------------------------------------

  lemma ProductReal(a: Unpacked, b: Unpacked, p: real)
    requires a.class_.Finite? && b.class_.Finite? && p == Value(a) * Value(b)
    ensures Real(Product(a, b)) == p && Product(a, b).sign == (a.sign != b.sign)
  {
    hide Dyadic;
    DyadicProduct(a.class_.sig, a.class_.exp, b.class_.sig, b.class_.exp);
    SignsMultiply(a.sign, b.sign, Mag(a.class_), Mag(b.class_));
  }

  lemma SignsMultiply(s: bool, t: bool, x: real, y: real)
    ensures (if s then -x else x) * (if t then -y else y) == if s != t then -(x * y) else x * y
  {
  }

  /** What a fused multiply-add of numbers must deliver: one rounding of the exact p + c. */
  ghost predicate FusedSpec(f: Fmt, rm: Rm, psign: bool, p: real, c: Unpacked, out: Out)
    requires IsNumber(c.class_)
  {
    var s := p + Value(c);
    if s != 0.0 then CorrectResult(f, rm, s < 0.0, Abs(s), out)
    else IsExactZero(f, rm, psign, c.sign, out)
  }

  /** For all numbers a, b and c, zeros included, fma is the single correct rounding of the
      exact a * b + c. */
  lemma FmaCorrect(x: nat, y: nat, z: nat, f: Fmt, rm: Rm, p: real)
    requires IsPattern(f, z)
    requires IsNumber(Unpack(x, f).class_) && IsNumber(Unpack(y, f).class_) && IsNumber(Unpack(z, f).class_)
    requires p == Value(Unpack(x, f)) * Value(Unpack(y, f))
    ensures FusedSpec(f, rm, Unpack(x, f).sign != Unpack(y, f).sign, p, Unpack(z, f), Fma(x, y, z, f, rm))
  {
    hide Fma, Unpack, CorrectResult, Dyadic, ZeroBits, Product, Real, Pow2, FusedSpec;
    var a, b := Unpack(x, f), Unpack(y, f);
    if a.class_.Finite? && b.class_.Finite? {
      ProductReal(a, b, p);
      FusedNonZero(x, y, z, f, rm);
    } else {
      ZeroProduct(Value(a), Value(b), p);
      FusedZeroProduct(x, y, z, f, rm);
    }
  }

  lemma ZeroProduct(x: real, y: real, p: real)
    requires p == x * y && (x == 0.0 || y == 0.0)
    ensures p == 0.0
  {
  }

  lemma FusedZeroProduct(x: nat, y: nat, z: nat, f: Fmt, rm: Rm)
    requires IsPattern(f, z)
    requires IsNumber(Unpack(x, f).class_) && IsNumber(Unpack(y, f).class_) && IsNumber(Unpack(z, f).class_)
    requires Unpack(x, f).class_.Zero? || Unpack(y, f).class_.Zero?
    ensures FusedSpec(f, rm, Unpack(x, f).sign != Unpack(y, f).sign, 0.0, Unpack(z, f), Fma(x, y, z, f, rm))
  {
    hide RoundPack, RoundSum, Unpack, CorrectResult, Dyadic, ZeroBits, Pow2, IsExactZero;
    ZeroDelivered(f, rm, Unpack(x, f).sign != Unpack(y, f).sign, Unpack(z, f).sign);
    FinitePositive(f, z);
    if Unpack(z, f).class_.Finite? { ExactIsCorrect(f, rm, z); }
  }

  lemma FusedNonZero(x: nat, y: nat, z: nat, f: Fmt, rm: Rm)
    requires Unpack(x, f).class_.Finite? && Unpack(y, f).class_.Finite? && IsNumber(Unpack(z, f).class_)
    ensures var a, b := Unpack(x, f), Unpack(y, f);
            FusedSpec(f, rm, Product(a, b).sign, Real(Product(a, b)), Unpack(z, f), Fma(x, y, z, f, rm))
  {
    hide RoundPack, RoundSum, Unpack, CorrectResult, Dyadic, ZeroBits, Product, Real, Pow2, IsExactZero;
    var a, b, c := Unpack(x, f), Unpack(y, f), Unpack(z, f);
    ProductFits(f, x, y, T);
    if c.class_.Zero? {
      FusedWithZero(T, Product(a, b), f, rm);
    } else {
      SigFits(f, z, T);
      FusedWithFinite(T, Product(a, b), c, f, rm);
    }
  }

  lemma FusedWithZero(t: Width, p: Signed, f: Fmt, rm: Rm)
    requires p.sig > 0
    ensures Real(p) != 0.0 && p.sign == (Real(p) < 0.0)
    ensures CorrectResult(f, rm, p.sign, Abs(Real(p)), RoundPack(t, p.sign, p.exp, p.sig, false, f, rm))
  {
    hide RoundPack, CorrectResult, Dyadic;
    DyadicSign(p.sig, p.exp);
    RoundPackCorrect(t, p.sign, p.exp, p.sig, false, f, rm, Dyadic(p.sig, p.exp));
  }

  lemma FusedWithFinite(t: Width, p: Signed, c: Unpacked, f: Fmt, rm: Rm)
    requires 0 < p.sig < Pow2(t - 10) && c.class_.Finite? && 0 < c.class_.sig < Pow2(t - 10)
    ensures FusedSpec(f, rm, p.sign, Real(p), c, RoundSum(t, p, Signed(c.sign, c.class_.sig, c.class_.exp), f, rm))
  {
    hide RoundSum, CorrectResult, Dyadic, ZeroBits, IsExactZero;
    ZeroDelivered(f, rm, p.sign, c.sign);
    RoundSumCorrect(t, p, Signed(c.sign, c.class_.sig, c.class_.exp), f, rm);
    DyadicSign(p.sig, p.exp);
    DyadicSign(c.class_.sig, c.class_.exp);
  }
}
