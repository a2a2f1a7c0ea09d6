/** Binary interchange formats: bit patterns, their fields and the numbers they stand for,
    and what an operation that rounds must deliver for an exact magnitude v. */
module FloatFormat {
  import opened Powers
  import opened RoundingSpec

  datatype Format = Format(expBits: nat, fracBits: nat)

  /** Formats whose significands fit the 128-bit working width with room to spare. */
  type Fmt = f: Format | 2 <= f.expBits <= 11 && 2 <= f.fracBits <= 52 witness Format(8, 23)

  const F32: Fmt := Format(8, 23)
  const F64: Fmt := Format(11, 52)

  function Bias(f: Fmt): int { Pow2(f.expBits - 1) - 1 }
  function ExpMax(f: Fmt): nat { Pow2(f.expBits) - 1 }
  function FracSpan(f: Fmt): nat { Pow2(f.fracBits) }
  function SignBit(f: Fmt): nat { Pow2(f.expBits + f.fracBits) }
  /** Precision in bits, counting the implicit leading one. */
  function Prec(f: Fmt): nat { f.fracBits + 1 }
  function Emin(f: Fmt): int { 1 - Bias(f) }
  /** The exponent of the last place of a subnormal. */
  function Qmin(f: Fmt): int { Emin(f) - f.fracBits }

  /** The fields side by side: sign, exponent, fraction. */
  function Pack(f: Fmt, sign: bool, e: nat, frac: nat): nat {
    (if sign then SignBit(f) else 0) + Shl(e, f.fracBits) + frac
  }

  function CanonicalNan(f: Fmt): nat { Pack(f, false, ExpMax(f), Pow2(f.fracBits - 1)) }
  function InfBits(f: Fmt, sign: bool): nat { Pack(f, sign, ExpMax(f), 0) }
  function ZeroBits(f: Fmt, sign: bool): nat { Pack(f, sign, 0, 0) }
  function MaxFiniteBits(f: Fmt, sign: bool): nat { Pack(f, sign, ExpMax(f) - 1, FracSpan(f) - 1) }

  datatype Class = Zero | Inf | Nan(signalling: bool) | Finite(sig: nat, exp: int)
  datatype Unpacked = Unpacked(sign: bool, class_: Class)

  function SignField(f: Fmt, bits: nat): bool { Shr(bits, f.expBits + f.fracBits) % 2 == 1 }
  function ExpField(f: Fmt, bits: nat): nat { Low(Shr(bits, f.fracBits), f.expBits) }
  function FracField(f: Fmt, bits: nat): nat { Low(bits, f.fracBits) }

  function Classify(f: Fmt, e: nat, frac: nat): Class {
    if e == ExpMax(f) then
      if frac == 0 then Class.Inf else Nan(Shr(frac, f.fracBits - 1) % 2 == 0)
    else if e == 0 then
      if frac == 0 then Zero else Finite(frac, 1 - Bias(f) - f.fracBits)
    else
      Finite(frac + FracSpan(f), e - Bias(f) - f.fracBits)
  }

  function Unpack(bits: nat, f: Fmt): Unpacked {
    Unpacked(SignField(f, bits), Classify(f, ExpField(f, bits), FracField(f, bits)))
  }

  /** A pattern of the format's own width. */
  predicate IsPattern(f: Fmt, bits: nat) { bits < 2 * SignBit(f) }

  predicate IsNumber(c: Class) { c.Zero? || c.Finite? }

  /** The magnitude a zero or finite pattern stands for. */
  ghost function Mag(c: Class): real
    requires IsNumber(c)
  {
    if c.Zero? then 0.0 else Dyadic(c.sig, c.exp)
  }

  ghost function Value(u: Unpacked): real
    requires IsNumber(u.class_)
  {
    if u.sign then -Mag(u.class_) else Mag(u.class_)
  }

  ghost function MaxFinite(f: Fmt): real {
    Dyadic(Pow2(Prec(f)) - 1, Bias(f) - f.fracBits)
  }

  datatype Flags = Flags(nv: bool, dz: bool, of: bool, uf: bool, nx: bool)
  const NO_FLAGS := Flags(false, false, false, false, false)

  datatype Out = Out(bits: nat, flags: Flags)

  // --- correct delivery --------------------------------------------------------------

  /** Tiny after rounding: rounded to full precision with an unlimited exponent, v stays
      below the smallest normal number. */
  ghost predicate Tiny(f: Fmt, rm: Rm, sign: bool, v: real) {
    exists m: real :: RoundsTo(Prec(f), Unbounded, rm, sign, v, m) && m < Dyadic(1, Emin(f))
  }

  function OverflowBits(f: Fmt, rm: Rm, sign: bool): nat {
    var toInf := match rm
      case Rne => true
      case Rmm => true
      case Rtz => false
      case Rdn => sign
      case Rup => !sign;
    if toInf then InfBits(f, sign) else MaxFiniteBits(f, sign)
  }

  ghost predicate Delivers(f: Fmt, rm: Rm, sign: bool, v: real, m: real, out: Out) {
    if m > MaxFinite(f) then
      out == Out(OverflowBits(f, rm, sign), NO_FLAGS.(of := true, nx := true))
    else
      var u := Unpack(out.bits, f);
      && IsPattern(f, out.bits) && u.sign == sign && IsNumber(u.class_) && Mag(u.class_) == m
      && out.flags == NO_FLAGS.(nx := m != v, uf := m != v && Tiny(f, rm, sign, v))
  }

  /** `out` is what IEEE 754 requires for a result of magnitude v > 0 and the given sign:
      correctly rounded, inexact iff rounding changed it, overflow iff the rounded magnitude
      exceeds the largest finite number, underflow iff inexact and tiny. */
  ghost predicate CorrectResult(f: Fmt, rm: Rm, sign: bool, v: real, out: Out) {
    exists m: real :: RoundsTo(Prec(f), Bounded(Qmin(f)), rm, sign, v, m) && Delivers(f, rm, sign, v, m, out)
  }

  // --- fields ------------------------------------------------------------------------

  lemma MagnitudeBits(f: Fmt, e: nat, frac: nat)
    requires e <= ExpMax(f) && frac < FracSpan(f)
    ensures Shl(e, f.fracBits) + frac < SignBit(f)
  {
    ShlOrder(e, Pow2(f.expBits), f.fracBits);
    ShlPow2(f.expBits, f.fracBits);
  }

  /** Packing three in-range fields and reading them back. */
  lemma PackFields(f: Fmt, sign: bool, e: nat, frac: nat)
    requires e <= ExpMax(f) && frac < FracSpan(f)
    ensures var bits := Pack(f, sign, e, frac);
            IsPattern(f, bits) && SignField(f, bits) == sign && ExpField(f, bits) == e && FracField(f, bits) == frac
  {
    hide Shl, Shr, Low, Pow2;
    var s := if sign then 1 else 0;
    var low := Shl(e, f.fracBits) + frac;
    ShlOne(f.expBits);
    ShlOne(f.expBits + f.fracBits);
    ShlShl(s, f.expBits, f.fracBits);
    ShlAdd(Shl(s, f.expBits), e, f.fracBits);
    var high := Shl(s, f.expBits) + e;
    assert Pack(f, sign, e, frac) == Shl(high, f.fracBits) + frac;
    HighLowUnique(high, frac, f.fracBits);
    HighLowUnique(s, e, f.expBits);
    MagnitudeBits(f, e, frac);
    HighLowUnique(s, low, f.expBits + f.fracBits);
  }

  lemma ZeroPattern(f: Fmt, sign: bool)
    ensures IsPattern(f, ZeroBits(f, sign)) && Unpack(ZeroBits(f, sign), f) == Unpacked(sign, Zero)
  {
    hide Shl, Pow2, SignField, ExpField, FracField, IsPattern;
    PackFields(f, sign, 0, 0);
    OnesAbove(f);
  }

  lemma OnesAbove(f: Fmt)
    ensures ExpMax(f) > 0 && FracSpan(f) > 0
  {
  }

  /** Every pattern is the packing of its fields. */
  lemma FieldsPack(f: Fmt, bits: nat)
    requires IsPattern(f, bits)
    ensures bits == Pack(f, SignField(f, bits), ExpField(f, bits), FracField(f, bits))
    ensures ExpField(f, bits) <= ExpMax(f) && FracField(f, bits) < FracSpan(f)
  {
    var high := Shr(bits, f.fracBits);
    var s, e, frac := Shr(high, f.expBits), ExpField(f, bits), FracField(f, bits);
    HighLow(bits, f.fracBits);
    HighLow(high, f.expBits);
    ShlAdd(Shl(s, f.expBits), e, f.fracBits);
    ShlShl(s, f.expBits, f.fracBits);
    MagnitudeBits(f, e, frac);
    TopBit(f, bits, s, Shl(e, f.fracBits) + frac);
  }

  lemma TopBit(f: Fmt, bits: nat, s: nat, low: nat)
    requires IsPattern(f, bits) && bits == Shl(s, f.expBits + f.fracBits) + low
    ensures bits == (if s == 1 then SignBit(f) else 0) + low && s <= 1
    ensures low < SignBit(f) ==> SignField(f, bits) == (s == 1)
  {
    hide Shl, Shr, Low, Pow2;
    var w := f.expBits + f.fracBits;
    ShlOne(w);
    ShlAdd(1, 1, w);
    if s >= 2 { ShlOrder(2, s, w); }
    if low < SignBit(f) { HighLowUnique(s, low, w); }
  }

  lemma ExpBounds(f: Fmt)
    ensures ExpMax(f) == 2 * Bias(f) + 1 && Bias(f) >= 1
    ensures Pow2(Prec(f)) == 2 * FracSpan(f) && FracSpan(f) >= 4
  {
    assert Pow2(f.expBits) == 2 * Pow2(f.expBits - 1);
    Pow2Mono(1, f.expBits - 1);
    Pow2Mono(2, f.fracBits);
    assert Pow2(2) == 4;
  }

  /** The significand and exponent of a finite pattern are in canonical form. */
  lemma FiniteIsCanonical(f: Fmt, bits: nat)
    ensures var c := Unpack(bits, f).class_;
            c.Finite? ==> 0 < c.sig && Canonical(Prec(f), Bounded(Qmin(f)), c.sig, c.exp)
  {
    ExpBounds(f);
    HighLow(bits, f.fracBits);
  }

  /** Sign and magnitude determine the pattern. */
  lemma PatternUnique(f: Fmt, x: nat, y: nat)
    requires IsPattern(f, x) && IsPattern(f, y)
    requires IsNumber(Unpack(x, f).class_) && IsNumber(Unpack(y, f).class_)
    requires Unpack(x, f).sign == Unpack(y, f).sign
    requires Mag(Unpack(x, f).class_) == Mag(Unpack(y, f).class_)
    ensures x == y
  {
    var c, d := Unpack(x, f).class_, Unpack(y, f).class_;
    FieldsPack(f, x);
    FieldsPack(f, y);
    FiniteIsCanonical(f, x);
    FiniteIsCanonical(f, y);
    if c.Finite? && d.Finite? {
      CanonicalUnique(Prec(f), Bounded(Qmin(f)), c.sig, c.exp, d.sig, d.exp);
    } else if c.Finite? {
      DyadicSign(c.sig, c.exp);
    } else if d.Finite? {
      DyadicSign(d.sig, d.exp);
    }
  }

  /** The specification leaves no freedom: it fixes the bit pattern and every flag. */
  lemma CorrectResultUnique(f: Fmt, rm: Rm, sign: bool, v: real, a: Out, b: Out)
    requires CorrectResult(f, rm, sign, v, a) && CorrectResult(f, rm, sign, v, b)
    ensures a == b
  {
    var p, r := Prec(f), Bounded(Qmin(f));
    var m: real :| RoundsTo(p, r, rm, sign, v, m) && Delivers(f, rm, sign, v, m, a);
    var n: real :| RoundsTo(p, r, rm, sign, v, n) && Delivers(f, rm, sign, v, n, b);
    RoundsToUnique(p, r, rm, sign, v, m, n);
    if m <= MaxFinite(f) { PatternUnique(f, a.bits, b.bits); }
  }
}
