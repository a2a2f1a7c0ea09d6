/** What a correctly rounded result is on which side of the exact value, overflow included, and what
    the patterns are as numbers: nothing here names how an overflow is delivered or how fields are
    packed (IEEE 754-2019, sections 3.4, 4.3 and 7.4). */
module FloatDirections {
  import opened Powers
  import opened RoundingSpec
  import opened FloatFormat
  import opened FloatExceptions

  /** The exact value of the given sign and magnitude. */
  function Exactly(sign: bool, v: real): real { if sign then -v else v }

  /** u, with the infinities at the ends of the line, is at most x. */
  ghost predicate AtMostReal(u: Unpacked, x: real) {
    match u.class_
    case Nan(_) => false
    case Inf => u.sign
    case _ => Value(u) <= x
  }

  ghost predicate AtLeastReal(u: Unpacked, x: real) {
    match u.class_
    case Nan(_) => false
    case Inf => !u.sign
    case _ => Value(u) >= x
  }

  /** In every mode the sign is kept; the directed modes stay on their side of the exact value, towards
      zero never leaving the numbers; an overflow to nearest is an infinity; one that stays finite has
      stopped at the largest finite magnitude; and an infinity comes only of an overflow. */
  lemma StaysOnItsSide(f: Fmt, rm: Rm, sign: bool, v: real, out: Out)
    requires v > 0.0 && CorrectResult(f, rm, sign, v, out)
    ensures var u := Unpack(out.bits, f);
            && IsPattern(f, out.bits) && u.sign == sign && !u.class_.Nan?
            && (rm == Rtz ==> IsNumber(u.class_) && Mag(u.class_) <= v)
            && (rm == Rdn ==> AtMostReal(u, Exactly(sign, v)))
            && (rm == Rup ==> AtLeastReal(u, Exactly(sign, v)))
            && (u.class_.Inf? ==> out.flags.of)
            && (out.flags.of && (rm == Rne || rm == Rmm) ==> u.class_.Inf?)
            && (out.flags.of && !u.class_.Inf? ==> IsNumber(u.class_) && Mag(u.class_) == MaxFinite(f))
  {
    hide Unpack, Tiny, MaxFinite, InfBits, MaxFiniteBits, IsFloat, IsEven, Nearest, Tie, Mag, IsPattern;
    InfPattern(f, sign);
    LargestPattern(f, sign);
    var m: real :| RoundsTo(Prec(f), Bounded(Qmin(f)), rm, sign, v, m) && Delivers(f, rm, sign, v, m, out);
  }

  lemma InfPattern(f: Fmt, sign: bool)
    ensures IsPattern(f, InfBits(f, sign)) && Unpack(InfBits(f, sign), f) == Unpacked(sign, Class.Inf)
  {
    hide Shl, Low, Pow2, SignField, ExpField, FracField, IsPattern;
    ExpBounds(f);
    PackFields(f, sign, ExpMax(f), 0);
  }

  lemma LargestPattern(f: Fmt, sign: bool)
    ensures var u := Unpack(MaxFiniteBits(f, sign), f);
            && IsPattern(f, MaxFiniteBits(f, sign)) && u.sign == sign
            && IsNumber(u.class_) && Mag(u.class_) == MaxFinite(f)
  {
    hide Shl, Low, Pow2, SignField, ExpField, FracField, IsPattern, Dyadic;
    ExpBounds(f);
    PackFields(f, sign, ExpMax(f) - 1, FracSpan(f) - 1);
  }

  // --- the two formats, as numbers ----------------------------------------------------------------

  /** What a 32-bit pattern stands for. */
  lemma Single(bits: nat)
    ensures IsPattern(F32, bits) <==> bits < 0x1_0000_0000
    ensures var e, frac, u := bits / 0x80_0000 % 256, bits % 0x80_0000, Unpack(bits, F32);
            && (u.sign <==> bits / 0x8000_0000 % 2 == 1)
            && u.class_ == if e == 255 then (if frac == 0 then Class.Inf else Nan(frac < 0x40_0000))
                           else if e == 0 then (if frac == 0 then Zero else Finite(frac, -149))
                           else Finite(frac + 0x80_0000, e - 150)
    ensures CanonicalNan(F32) == 0x7fc0_0000
  {
    hide Shr, Low, Shl, Pow2;
    Pow2Numbers();
    Pow2Half(8);
    ShrLowAre(bits, 31, 0x8000_0000);
    ShrLowAre(bits, 23, 0x80_0000);
    ShrLowAre(Shr(bits, 23), 8, 256);
    ShrLowAre(bits % 0x80_0000, 22, 0x40_0000);
    ShlMul(255, 23);
  }

  /** What a 64-bit pattern stands for. */
  lemma Double(bits: nat)
    ensures IsPattern(F64, bits) <==> bits < 0x1_0000_0000_0000_0000
    ensures var e, frac, u := bits / 0x10_0000_0000_0000 % 2048, bits % 0x10_0000_0000_0000, Unpack(bits, F64);
            && (u.sign <==> bits / 0x8000_0000_0000_0000 % 2 == 1)
            && u.class_ == if e == 2047 then (if frac == 0 then Class.Inf else Nan(frac < 0x8_0000_0000_0000))
                           else if e == 0 then (if frac == 0 then Zero else Finite(frac, -1074))
                           else Finite(frac + 0x10_0000_0000_0000, e - 1075)
    ensures CanonicalNan(F64) == 0x7ff8_0000_0000_0000
  {
    hide Shr, Low, Shl, Pow2;
    Pow2Numbers();
    Pow2Half(11);
    ShrLowAre(bits, 63, 0x8000_0000_0000_0000);
    ShrLowAre(bits, 52, 0x10_0000_0000_0000);
    ShrLowAre(Shr(bits, 52), 11, 2048);
    ShrLowAre(bits % 0x10_0000_0000_0000, 51, 0x8_0000_0000_0000);
    ShlMul(2047, 52);
  }
}
