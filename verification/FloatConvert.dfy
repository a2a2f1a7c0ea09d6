/** Conversions between formats and to and from integers, and comparison. */
module FloatConvert {
  import opened Powers
  import opened RoundingSpec
  import opened FloatFormat
  import opened Rounding
  import opened FloatOps
  import opened FloatAdd
  import opened FloatExceptions

  // --- between formats ---------------------------------------------------------------------

  function Convert(bits: nat, from: Fmt, to: Fmt, rm: Rm): Out {
    var a := Unpack(bits, from);
    match a.class_
    case Nan(signalling) => NanOut(to, signalling)
    case Inf => Out(InfBits(to, a.sign), NO_FLAGS)
    case Zero => Out(ZeroBits(to, a.sign), NO_FLAGS)
    case Finite(sig, exp) => RoundPack(T, a.sign, exp, sig, false, to, rm)
  }

  lemma ConvertFinite(bits: nat, from: Fmt, to: Fmt, rm: Rm)
    requires Unpack(bits, from).class_.Finite?
    ensures var a := Unpack(bits, from);
            Mag(a.class_) > 0.0 && CorrectResult(to, rm, a.sign, Mag(a.class_), Convert(bits, from, to, rm))
  {
    hide RoundPack, Unpack, CorrectResult, Dyadic;
    var a := Unpack(bits, from);
    FiniteIsCanonical(from, bits);
    FinitePositive(from, bits);
    RoundPackCorrect(T, a.sign, a.class_.exp, a.class_.sig, false, to, rm, Mag(a.class_));
  }

  /** Every pattern converts: numbers are correctly rounded with their sign, infinities stay, and a NaN
      becomes the canonical one, invalid exactly if it signals. */
  lemma ConvertCorrect(bits: nat, from: Fmt, to: Fmt, rm: Rm)
    ensures var a, out := Unpack(bits, from), Convert(bits, from, to, rm);
            && Exceptions(to, out, a.class_.Nan?, IsSnan(a.class_), false)
            && (IsNumber(a.class_) ==> MagnitudeSpec(to, rm, a.sign, Mag(a.class_), out))
            && (a.class_.Inf? ==> Unpack(out.bits, to) == Unpacked(a.sign, Class.Inf) && out.flags == NO_FLAGS)
  {
    hide RoundPack, Unpack, CorrectResult, Dyadic, InfBits, ZeroBits, CanonicalNan;
    var a := Unpack(bits, from);
    UnpackSpecial(to, a.sign);
    if a.class_.Finite? {
      ConvertFinite(bits, from, to, rm);
      CorrectIsQuiet(to, rm, a.sign, Mag(a.class_), Convert(bits, from, to, rm));
    }
  }

  /** to has at least the precision and exponent range of from. */
  ghost predicate Widens(from: Fmt, to: Fmt) {
    from.fracBits <= to.fracBits && from.expBits <= to.expBits
  }

  lemma NormalisedIn(p: nat, r: Range, k: nat, q: int)
    requires p >= 2 && 0 < k < Pow2(p) && Allowed(r, q)
    ensures IsFloat(p, r, Dyadic(k, q))
  {
    hide Dyadic, Pow2;
    MsbBelow(k, p);
    var g := p - 1 - Msb(k);
    if r.Unbounded? || q - g >= r.qmin {
      ShlRange(k, Msb(k), g);
      DyadicShl(k, g, q - g);
      assert FloatAt(p, r, Dyadic(k, q), Shl(k, g), q - g);
    } else {
      var h := q - r.qmin;
      ShlRange(k, Msb(k), h);
      Pow2Mono(Msb(k) + 1 + h, p);
      DyadicShl(k, h, r.qmin);
      assert FloatAt(p, r, Dyadic(k, q), Shl(k, h), r.qmin);
    }
  }

  lemma RoundsToItself(p: nat, r: Range, rm: Rm, sign: bool, v: real)
    requires p >= 2 && IsFloat(p, r, v)
    ensures RoundsTo(p, r, rm, sign, v, v)
  {
  }

  lemma QminWidens(from: Fmt, to: Fmt)
    requires Widens(from, to)
    ensures Qmin(to) <= Qmin(from) && Bias(from) <= Bias(to)
  {
    Pow2Mono(from.expBits - 1, to.expBits - 1);
  }

  lemma MaxFiniteWidens(from: Fmt, to: Fmt)
    requires Widens(from, to)
    ensures MaxFinite(from) <= MaxFinite(to)
  {
    hide Dyadic, Pow2;
    QminWidens(from, to);
    var d := to.fracBits - from.fracBits;
    var k := Pow2(Prec(from)) - 1;
    var q := Bias(from) - from.fracBits - d;
    ShlPow2(Prec(from), d);
    ShlOrder(k, Pow2(Prec(from)), d);
    DyadicShl(k, d, q);
    DyadicLt(Pow2(Prec(to)) - 1, Shl(k, d), q);
    DyadicMono(Pow2(Prec(to)) - 1, q, Bias(to) - to.fracBits);
  }

  /** Widening is exact: the sign survives, and so does the value or infinity, and no flag is raised;
      a NaN stays one. */
  lemma WideningIsExact(bits: nat, from: Fmt, to: Fmt, rm: Rm)
    requires Widens(from, to)
    ensures var a, out := Unpack(bits, from), Convert(bits, from, to, rm);
            var b := Unpack(out.bits, to);
            if a.class_.Nan? then b.class_.Nan?
            else
              && out.flags == NO_FLAGS && b.sign == a.sign && (b.class_.Inf? <==> a.class_.Inf?)
              && (IsNumber(a.class_) ==> IsNumber(b.class_) && Value(b) == Value(a))
  {
    hide Convert, Unpack, Dyadic, Tiny, Pow2, RoundsTo, IsFloat;
    var a, out := Unpack(bits, from), Convert(bits, from, to, rm);
    if a.class_.Finite? {
      WideningFinite(bits, from, to, rm);
    } else {
      WideningOther(bits, from, to, rm);
    }
  }

  lemma WideningOther(bits: nat, from: Fmt, to: Fmt, rm: Rm)
    requires !Unpack(bits, from).class_.Finite?
    ensures var a, out := Unpack(bits, from), Convert(bits, from, to, rm);
            var b := Unpack(out.bits, to);
            if a.class_.Nan? then b.class_.Nan? else out.flags == NO_FLAGS && b.sign == a.sign && b.class_ == a.class_
  {
    hide RoundPack, Unpack, InfBits, ZeroBits, CanonicalNan;
    UnpackSpecial(to, Unpack(bits, from).sign);
  }

  lemma WideningFinite(bits: nat, from: Fmt, to: Fmt, rm: Rm)
    requires Widens(from, to) && Unpack(bits, from).class_.Finite?
    ensures var a, out := Unpack(bits, from), Convert(bits, from, to, rm);
            var b := Unpack(out.bits, to);
            out.flags == NO_FLAGS && b.sign == a.sign && IsNumber(b.class_) && Value(b) == Value(a)
  {
    hide Convert, Unpack, Dyadic, Tiny, Pow2, RoundsTo, IsFloat;
    var a, out := Unpack(bits, from), Convert(bits, from, to, rm);
    var v, p, r := Mag(a.class_), Prec(to), Bounded(Qmin(to));
    ConvertFinite(bits, from, to, rm);
    FiniteIsCanonical(from, bits);
    QminWidens(from, to);
    Pow2Mono(Prec(from), Prec(to));
    NormalisedIn(p, r, a.class_.sig, a.class_.exp);
    RoundsToItself(p, r, rm, a.sign, v);
    FiniteBelowMax(from, bits);
    MaxFiniteWidens(from, to);
    var m: real :| RoundsTo(p, r, rm, a.sign, v, m) && Delivers(to, rm, a.sign, v, m, out);
    RoundsToUnique(p, r, rm, a.sign, v, v, m);
  }

  // --- from integers -----------------------------------------------------------------------

  function FromInt(negative: bool, magnitude: nat, f: Fmt, rm: Rm): Out {
    if magnitude == 0 then Out(ZeroBits(f, false), NO_FLAGS)
    else RoundPack(T, negative, 0, magnitude, false, f, rm)
  }

  /** Every integer converts to the correctly rounded value; zero is positive. */
  lemma FromIntCorrect(negative: bool, magnitude: nat, f: Fmt, rm: Rm)
    ensures MagnitudeSpec(f, rm, negative && magnitude > 0, magnitude as real, FromInt(negative, magnitude, f, rm))
  {
    hide RoundPack, CorrectResult, ZeroBits;
    if magnitude > 0 {
      RoundPackCorrect(T, negative, 0, magnitude, false, f, rm, magnitude as real);
    }
  }

  // --- to integers ----------------------------------------------------------------------------

  function MaxPos(width: nat, signed: bool): nat {
    Pow2(if width == 32 then (if signed then 31 else 32) else (if signed then 63 else 64)) - 1
  }

  function MinNeg(width: nat, signed: bool): int {
    if signed then 0 - Pow2(if width == 32 then 31 else 63) else 0
  }

  /** The destinations' ranges: 32 and 64 bits, signed and unsigned. */
  lemma IntegerRanges()
    ensures MinNeg(32, true) == -0x8000_0000 && MaxPos(32, true) == 0x7fff_ffff
    ensures MinNeg(32, false) == 0 && MaxPos(32, false) == 0xffff_ffff
    ensures MinNeg(64, true) == -0x8000_0000_0000_0000 && MaxPos(64, true) == 0x7fff_ffff_ffff_ffff
    ensures MinNeg(64, false) == 0 && MaxPos(64, false) == 0xffff_ffff_ffff_ffff
  {
    Pow2Numbers();
    hide Pow2;
  }

  /** Registers are 64 bits of two's complement. */
  lemma EncodesModulo(i: int)
    requires -0x8000_0000_0000_0000 <= i < 0x1_0000_0000_0000_0000
    ensures 0 <= Encode(i) < 0x1_0000_0000_0000_0000 && Encode(i) == i % 0x1_0000_0000_0000_0000
  {
    Pow2Numbers();
    hide Pow2;
  }

  function Negated(sign: bool, k: int): int { if sign then -k else k }

  /** A 64-bit two's-complement register. */
  function Encode(i: int): int { if i < 0 then i + Pow2(64) else i }

  /** The integer part of sig * 2^exp, the first bit after the point, and the rest. */
  function IntegerPart(sig: nat, exp: int): (nat, bool, bool) {
    if exp >= 0 then (Shl(sig, exp), false, false)
    else if -exp >= 128 then (0, false, true)
    else
      var dropped := Low(sig, -exp);
      (Shr(sig, -exp), Shr(dropped, -exp - 1) % 2 == 1, Low(dropped, -exp - 1) != 0)
  }

  function Saturate(sign: bool, width: nat, signed: bool): (int, Flags) {
    (Encode(if sign then MinNeg(width, signed) else MaxPos(width, signed)), INVALID)
  }

  function ToInt(bits: nat, f: Fmt, rm: Rm, width: nat, signed: bool): (int, Flags) {
    var a := Unpack(bits, f);
    match a.class_
    case Nan(_) => Saturate(false, width, signed)
    case Inf => Saturate(a.sign, width, signed)
    case Zero => (0, NO_FLAGS)
    case Finite(sig, exp) => FiniteToInt(a.sign, sig, exp, rm, width, signed)
  }

  function FiniteToInt(sign: bool, sig: nat, exp: int, rm: Rm, width: nat, signed: bool): (int, Flags) {
    if exp > 70 then Saturate(sign, width, signed)
    else
      var (int0, half, rest) := IntegerPart(sig, exp);
      var i := RoundUp(rm, sign, int0, half, rest);
      var fits := if sign then (if signed then i <= -MinNeg(width, signed) else i == 0) else i <= MaxPos(width, signed);
      if fits then (Encode(Negated(sign, i)), NO_FLAGS.(nx := half || rest))
      else Saturate(sign, width, signed)
  }

  /** i is the integer x rounds to. */
  predicate RoundsToInt(rm: Rm, x: real, i: int) {
    var y := i as real;
    match rm
    case Rdn => y <= x < y + 1.0
    case Rup => y - 1.0 < x <= y
    case Rtz => if x >= 0.0 then y <= x < y + 1.0 else y - 1.0 < x <= y
    case Rne => Dist(x, y) <= 0.5 && (Dist(x, y) == 0.5 ==> i % 2 == 0)
    case Rmm => Dist(x, y) <= 0.5 && (Dist(x, y) == 0.5 ==> Abs(y) > Abs(x))
  }

  /** There is one such integer. */
  lemma IntegerUnique(rm: Rm, x: real, i: int, j: int)
    requires RoundsToInt(rm, x, i) && RoundsToInt(rm, x, j)
    ensures i == j
  {
    if i < j { TwoApart(rm, x, i, j); } else if j < i { TwoApart(rm, x, j, i); }
  }

  lemma TwoApart(rm: Rm, x: real, i: int, j: int)
    requires i < j && RoundsToInt(rm, x, i)
    ensures !RoundsToInt(rm, x, j)
  {
    var y, z := i as real, j as real;
    assert y + 1.0 <= z;
    if Dist(x, y) == 0.5 && Dist(x, z) == 0.5 { assert z == y + 1.0; }
  }

  /** A float converts to the integer it rounds to, inexact iff rounding changed it; out of
      range it saturates and raises only Invalid; a NaN is the largest value. */
  ghost predicate ToIntSpec(a: Unpacked, rm: Rm, width: nat, signed: bool, out: (int, Flags)) {
    match a.class_
    case Nan(_) => out == (MaxPos(width, signed), INVALID)
    case Inf => out == (Encode(if a.sign then MinNeg(width, signed) else MaxPos(width, signed)), INVALID)
    case _ =>
      exists i: int :: RoundsToInt(rm, Value(a), i) && ConvertsTo(a, i, width, signed, out)
  }

  ghost predicate ConvertsTo(a: Unpacked, i: int, width: nat, signed: bool, out: (int, Flags))
    requires IsNumber(a.class_)
  {
    if MinNeg(width, signed) <= i <= MaxPos(width, signed) then
      out == (Encode(i), NO_FLAGS.(nx := i as real != Value(a)))
    else
      out == (Encode(if Value(a) < 0.0 then MinNeg(width, signed) else MaxPos(width, signed)), INVALID)
  }

  lemma IntegerRounds(rm: Rm, sign: bool, v: real, k: nat, half: bool, rest: bool)
    requires At(v, k as real, 1.0, half, rest) && v > 0.0
    ensures var i := RoundUp(rm, sign, k, half, rest);
            && RoundsToInt(rm, if sign then -v else v, Negated(sign, i))
            && (i as real != v <==> half || rest)
  {
  }

  lemma IntegerPartAt(sig: nat, exp: int)
    requires 0 < sig < Pow2(127)
    ensures var (k, half, rest) := IntegerPart(sig, exp);
            At(Dyadic(sig, exp), k as real, 1.0, half, rest)
  {
    hide Dyadic, Pow2, Shl, Shr, Low;
    DyadicAtZero(1);
    var (k, half, rest) := IntegerPart(sig, exp);
    DyadicAtZero(k);
    if exp >= 0 {
      DyadicShl(sig, exp, 0);
    } else if -exp >= 128 {
      Pow2Mono(127, -exp - 1);
      NoLowBits(sig);
      AllDropped(Dyadic(sig, exp), sig, false, exp, 0, -exp);
    } else {
      NoLowBits(sig);
      SomeKept(Dyadic(sig, exp), sig, false, exp, 0, -exp);
    }
  }

  lemma NoLowBits(n: nat)
    ensures Low(n, 0) == 0
  {
  }

  lemma DyadicAtZero(k: int)
    ensures Dyadic(k, 0) == k as real
  {
  }

  lemma FarAboveRange(sig: nat, exp: int, width: nat, signed: bool)
    requires sig > 0 && exp > 70
    ensures Shl(sig, exp) > MaxPos(width, signed) && 0 - Shl(sig, exp) < MinNeg(width, signed)
  {
    hide Pow2, Shl;
    ShlOne(exp);
    ShlOrder(1, sig, exp);
    Pow2Strict(31, exp);
    Pow2Strict(32, exp);
    Pow2Strict(63, exp);
    Pow2Strict(64, exp);
  }

  lemma ToIntCorrect(bits: nat, f: Fmt, rm: Rm, width: nat, signed: bool)
    ensures ToIntSpec(Unpack(bits, f), rm, width, signed, ToInt(bits, f, rm, width, signed))
  {
    hide Unpack, Dyadic, Pow2, FiniteToInt, Encode, MaxPos, MinNeg, RoundsToInt, ConvertsTo;
    var a := Unpack(bits, f);
    MaxPosPositive(width, signed);
    match a.class_
    case Nan(_) =>
    case Inf =>
    case Zero =>
      ZeroConverts(a, rm, width, signed);
    case Finite(sig, exp) =>
      FinitePositive(f, bits);
      SigBelow127(f, bits);
      if exp > 70 {
        HugeConverts(a, rm, width, signed);
      } else {
        SmallConverts(a, rm, width, signed);
      }
  }

  lemma HugeConverts(a: Unpacked, rm: Rm, width: nat, signed: bool)
    requires a.class_.Finite? && a.class_.sig > 0 && a.class_.exp > 70 && Mag(a.class_) > 0.0
    ensures ToIntSpec(a, rm, width, signed, FiniteToInt(a.sign, a.class_.sig, a.class_.exp, rm, width, signed))
  {
    hide Dyadic, Pow2, Encode, MaxPos, MinNeg, RoundsToInt, Shl;
    var sig, exp := a.class_.sig, a.class_.exp;
    var k := Shl(sig, exp);
    DyadicShl(sig, exp, 0);
    DyadicAtZero(k);
    FarAboveRange(sig, exp, width, signed);
    ExactInteger(rm, a.sign, k);
    assert ConvertsTo(a, Negated(a.sign, k), width, signed, FiniteToInt(a.sign, sig, exp, rm, width, signed));
  }

  lemma SmallConverts(a: Unpacked, rm: Rm, width: nat, signed: bool)
    requires a.class_.Finite? && 0 < a.class_.sig < Pow2(127) && a.class_.exp <= 70 && Mag(a.class_) > 0.0
    ensures ToIntSpec(a, rm, width, signed, FiniteToInt(a.sign, a.class_.sig, a.class_.exp, rm, width, signed))
  {
    hide Dyadic, Pow2, Encode, MaxPos, MinNeg, RoundsToInt, IntegerPart, RoundUp, At;
    var sig, exp := a.class_.sig, a.class_.exp;
    IntegerPartAt(sig, exp);
    MaxPosPositive(width, signed);
    var (k, half, rest) := IntegerPart(sig, exp);
    IntegerRounds(rm, a.sign, Mag(a.class_), k, half, rest);
    var i := Negated(a.sign, RoundUp(rm, a.sign, k, half, rest));
    assert ConvertsTo(a, i, width, signed, FiniteToInt(a.sign, sig, exp, rm, width, signed));
  }

  lemma ExactInteger(rm: Rm, sign: bool, k: nat)
    ensures RoundsToInt(rm, if sign then -(k as real) else k as real, Negated(sign, k))
  {
  }

  lemma MaxPosPositive(width: nat, signed: bool)
    ensures MaxPos(width, signed) >= 0 >= MinNeg(width, signed)
    ensures Encode(MaxPos(width, signed)) == MaxPos(width, signed) && Encode(0) == 0
    ensures !signed ==> MinNeg(width, signed) == 0
  {
    hide Pow2;
  }

  lemma ZeroConverts(a: Unpacked, rm: Rm, width: nat, signed: bool)
    requires a.class_.Zero?
    ensures ToIntSpec(a, rm, width, signed, (0, NO_FLAGS))
  {
    hide Pow2, MaxPos, MinNeg, Encode;
    MaxPosPositive(width, signed);
    assert RoundsToInt(rm, Value(a), 0) && ConvertsTo(a, 0, width, signed, (0, NO_FLAGS));
  }

  lemma SigBelow127(f: Fmt, bits: nat)
    ensures var c := Unpack(bits, f).class_; c.Finite? ==> 0 < c.sig < Pow2(127)
  {
    hide Unpack, Pow2;
    FiniteIsCanonical(f, bits);
    Pow2Mono(Prec(f), 127);
  }

  // --- comparison ---------------------------------------------------------------------------------

  /** Sign and magnitude bits as a signed number. */
  function OrderKey(bits: nat, f: Fmt): int {
    var mag := Low(bits, f.expBits + f.fracBits);
    Negated(SignField(f, bits), mag)
  }

  function Compare(x: nat, y: nat, f: Fmt): int {
    (if OrderKey(x, f) > OrderKey(y, f) then 1 else 0) - (if OrderKey(x, f) < OrderKey(y, f) then 1 else 0)
  }

  /** The order of the extended reals on non-NaN operands. */
  ghost predicate Less(a: Unpacked, b: Unpacked)
    requires !a.class_.Nan? && !b.class_.Nan?
  {
    if a.class_.Inf? then a.sign && !(b.class_.Inf? && b.sign)
    else if b.class_.Inf? then !b.sign
    else Value(a) < Value(b)
  }

  /** As magnitudes: an infinity exceeds every number. */
  ghost predicate MagLess(c: Class, d: Class)
    requires !c.Nan? && !d.Nan?
  {
    if c.Inf? then false else if d.Inf? then true else Mag(c) < Mag(d)
  }

  lemma MagnitudeOrder(f: Fmt, e: nat, frac: nat, e': nat, frac': nat)
    requires e <= ExpMax(f) && e' <= ExpMax(f) && frac < FracSpan(f) && frac' < FracSpan(f)
    requires !Classify(f, e, frac).Nan? && !Classify(f, e', frac').Nan?
    requires Shl(e, f.fracBits) + frac < Shl(e', f.fracBits) + frac'
    ensures MagLess(Classify(f, e, frac), Classify(f, e', frac'))
  {
    hide Dyadic, Shl;
    ExpBounds(f);
    if e' < e { ShlOrder(e', e, f.fracBits); }
    var c, d := Classify(f, e, frac), Classify(f, e', frac');
    if c.Finite? && d.Finite? {
      if c.exp == d.exp {
        DyadicLt(c.sig, d.sig, c.exp);
      } else {
        SmallerExponentIsBelow(Prec(f), d.sig, d.exp, c.sig, c.exp);
      }
    } else if d.Finite? {
      DyadicSign(d.sig, d.exp);
    }
  }

  lemma MagnitudeField(f: Fmt, bits: nat)
    ensures Low(bits, f.expBits + f.fracBits) == Shl(ExpField(f, bits), f.fracBits) + FracField(f, bits)
    ensures ExpField(f, bits) <= ExpMax(f) && FracField(f, bits) < FracSpan(f)
  {
    hide Shl, Shr, Low, Pow2;
    var high := Shr(bits, f.fracBits);
    var s, e, frac := Shr(high, f.expBits), ExpField(f, bits), FracField(f, bits);
    HighLow(bits, f.fracBits);
    HighLow(high, f.expBits);
    ShlAdd(Shl(s, f.expBits), e, f.fracBits);
    ShlShl(s, f.expBits, f.fracBits);
    MagnitudeBits(f, e, frac);
    HighLowUnique(s, Shl(e, f.fracBits) + frac, f.expBits + f.fracBits);
  }

  lemma KeyOrder(x: nat, y: nat, f: Fmt)
    requires !Unpack(x, f).class_.Nan? && !Unpack(y, f).class_.Nan?
    requires Low(x, f.expBits + f.fracBits) < Low(y, f.expBits + f.fracBits)
    ensures MagLess(Unpack(x, f).class_, Unpack(y, f).class_)
  {
    hide Classify, Shl, Low, MagLess;
    MagnitudeField(f, x);
    MagnitudeField(f, y);
    MagnitudeOrder(f, ExpField(f, x), FracField(f, x), ExpField(f, y), FracField(f, y));
  }

  lemma ZeroKey(x: nat, f: Fmt)
    ensures Low(x, f.expBits + f.fracBits) == 0 <==> Unpack(x, f).class_.Zero?
  {
    MagnitudeField(f, x);
    ExpBounds(f);
    var e := ExpField(f, x);
    ShlOrder(0, e, f.fracBits);
    ShlOne(f.fracBits);
  }

  lemma SameKey(x: nat, y: nat, f: Fmt)
    requires Low(x, f.expBits + f.fracBits) == Low(y, f.expBits + f.fracBits)
    ensures Unpack(x, f).class_ == Unpack(y, f).class_
  {
    hide Shl, Low, Classify;
    MagnitudeField(f, x);
    MagnitudeField(f, y);
    HighLowUnique(ExpField(f, x), FracField(f, x), f.fracBits);
    HighLowUnique(ExpField(f, y), FracField(f, y), f.fracBits);
  }

  /** compare agrees with the order of the values, -0 equal to +0 and the infinities at the
      ends. */
  lemma CompareCorrect(x: nat, y: nat, f: Fmt)
    requires !Unpack(x, f).class_.Nan? && !Unpack(y, f).class_.Nan?
    ensures Compare(x, y, f) == -1 <==> Less(Unpack(x, f), Unpack(y, f))
    ensures Compare(x, y, f) == 1 <==> Less(Unpack(y, f), Unpack(x, f))
  {
    hide Low, Classify, Dyadic;
    var w := f.expBits + f.fracBits;
    ZeroKey(x, f);
    ZeroKey(y, f);
    FinitePositive(f, x);
    FinitePositive(f, y);
    if Low(x, w) < Low(y, w) { KeyOrder(x, y, f); }
    if Low(y, w) < Low(x, w) { KeyOrder(y, x, f); }
    if Low(x, w) == Low(y, w) { SameKey(x, y, f); }
  }
}
