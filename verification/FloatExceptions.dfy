/** When the operations return a NaN and raise Invalid or Divide-by-zero, for every operand
    (IEEE 754-2019, sections 7.2 and 7.3), and that no intermediate leaves 128 bits. */
module FloatExceptions {
  import opened Powers
  import opened RoundingSpec
  import opened FloatFormat
  import opened Rounding
  import opened FloatAdd
  import opened FloatOps

  /** The result is a NaN exactly when `nan`, always the canonical one; Invalid exactly when
      `invalid`; Divide-by-zero exactly when `dz`. */
  ghost predicate Exceptions(f: Fmt, out: Out, nan: bool, invalid: bool, dz: bool) {
    && (Unpack(out.bits, f).class_.Nan? <==> nan)
    && (nan ==> out.bits == CanonicalNan(f))
    && out.flags.nv == invalid && out.flags.dz == dz
  }

  lemma UnpackSpecial(f: Fmt, sign: bool)
    ensures Unpack(CanonicalNan(f), f) == Unpacked(false, Nan(false))
    ensures Unpack(InfBits(f, sign), f) == Unpacked(sign, Class.Inf)
    ensures Unpack(ZeroBits(f, sign), f) == Unpacked(sign, Zero)
    ensures !Unpack(MaxFiniteBits(f, sign), f).class_.Nan?
  {
    hide Unpack, CanonicalNan, InfBits, ZeroBits, MaxFiniteBits;
    UnpackNan(f);
    UnpackEdges(f, sign);
    UnpackMaxFinite(f, sign);
  }

  lemma UnpackNan(f: Fmt)
    ensures Unpack(CanonicalNan(f), f) == Unpacked(false, Nan(false))
  {
    hide SignField, ExpField, FracField, Pack, Classify, Pow2, ExpMax, FracSpan;
    HalfSpan(f);
    PackFields(f, false, ExpMax(f), Pow2(f.fracBits - 1));
    ClassifyNan(f);
  }

  lemma HalfSpan(f: Fmt)
    ensures 1 <= Pow2(f.fracBits - 1) < FracSpan(f)
  {
  }

  lemma ClassifyNan(f: Fmt)
    ensures Classify(f, ExpMax(f), Pow2(f.fracBits - 1)) == Nan(false)
  {
    hide Shl, Low, Shr, Pow2, ExpMax;
    HalfSpan(f);
    ShlOne(f.fracBits - 1);
    HighLowUnique(1, 0, f.fracBits - 1);
  }

  lemma UnpackEdges(f: Fmt, sign: bool)
    ensures Unpack(InfBits(f, sign), f) == Unpacked(sign, Class.Inf)
    ensures Unpack(ZeroBits(f, sign), f) == Unpacked(sign, Zero)
  {
    hide Shl, Low, Pow2;
    ExpBounds(f);
    PackFields(f, sign, ExpMax(f), 0);
    PackFields(f, sign, 0, 0);
  }

  lemma UnpackMaxFinite(f: Fmt, sign: bool)
    ensures !Unpack(MaxFiniteBits(f, sign), f).class_.Nan?
  {
    hide Shl, Low, Pow2;
    ExpBounds(f);
    PackFields(f, sign, ExpMax(f) - 1, FracSpan(f) - 1);
  }

  lemma CorrectIsQuiet(f: Fmt, rm: Rm, sign: bool, v: real, out: Out)
    requires CorrectResult(f, rm, sign, v, out)
    ensures Exceptions(f, out, false, false, false)
  {
    hide RoundsTo, Unpack, Mag, Tiny, MaxFinite, InfBits, MaxFiniteBits, CanonicalNan;
    UnpackSpecial(f, sign);
    var m: real :| RoundsTo(Prec(f), Bounded(Qmin(f)), rm, sign, v, m) && Delivers(f, rm, sign, v, m, out);
  }

  /** Addition is invalid for a signalling NaN or infinities that cancel. */
  lemma AddExceptions(x: nat, y: nat, negate: bool, f: Fmt, rm: Rm)
    requires IsPattern(f, x) && IsPattern(f, y)
    ensures var a, b, out := Unpack(x, f), Unpack(y, f), AddSigned(x, y, negate, f, rm);
            var cancel := a.class_.Inf? && b.class_.Inf? && a.sign != (b.sign != negate);
            && Exceptions(f, out, a.class_.Nan? || b.class_.Nan? || cancel,
                          IsSnan(a.class_) || IsSnan(b.class_) || cancel, false)
            && (!a.class_.Nan? && !b.class_.Nan? && !cancel && (a.class_.Inf? || b.class_.Inf?) ==>
                  out == Out(InfBits(f, if a.class_.Inf? then a.sign else b.sign != negate), NO_FLAGS))
  {
    hide Unpack, RoundSum, Dyadic, InfBits, ZeroBits, CanonicalNan, FlipSign, CorrectResult;
    var a, b := Unpack(x, f), Unpack(y, f);
    UnpackSpecial(f, true);
    UnpackSpecial(f, false);
    if IsNumber(a.class_) && IsNumber(b.class_) {
      AddCorrect(x, y, negate, f, rm);
      var s := Value(a) + Value(b.(sign := b.sign != negate));
      if s != 0.0 { CorrectIsQuiet(f, rm, s < 0.0, Abs(s), AddSigned(x, y, negate, f, rm)); }
    }
  }

  /** Multiplication is invalid for a signalling NaN or infinity times zero. */
  lemma MulExceptions(x: nat, y: nat, f: Fmt, rm: Rm)
    ensures var a, b, out := Unpack(x, f), Unpack(y, f), Mul(x, y, f, rm);
            var bad := (a.class_.Inf? && b.class_.Zero?) || (a.class_.Zero? && b.class_.Inf?);
            var sign := a.sign != b.sign;
            && Exceptions(f, out, a.class_.Nan? || b.class_.Nan? || bad,
                          IsSnan(a.class_) || IsSnan(b.class_) || bad, false)
            && (!a.class_.Nan? && !b.class_.Nan? && !bad ==>
                  && (a.class_.Inf? || b.class_.Inf? ==> out == Out(InfBits(f, sign), NO_FLAGS))
                  && (a.class_.Zero? || b.class_.Zero? ==> out == Out(ZeroBits(f, sign), NO_FLAGS)))
  {
    hide Unpack, RoundPack, Dyadic, InfBits, ZeroBits, CanonicalNan, CorrectResult, Product;
    var a, b := Unpack(x, f), Unpack(y, f);
    UnpackSpecial(f, a.sign != b.sign);
    if a.class_.Finite? && b.class_.Finite? {
      var exact := Mag(a.class_) * Mag(b.class_);
      MulFinite(x, y, f, rm, exact);
      CorrectIsQuiet(f, rm, a.sign != b.sign, exact, Mul(x, y, f, rm));
    }
  }

  lemma ExactQuotient(p: real, q: real) returns (exact: real)
    requires q > 0.0
    ensures exact * q == p
  {
    exact := p / q;
  }

  /** Division is invalid for 0/0 and inf/inf, and divides by zero exactly for a finite
      non-zero dividend over zero. */
  lemma DivExceptions(x: nat, y: nat, f: Fmt, rm: Rm)
    ensures var a, b, out := Unpack(x, f), Unpack(y, f), Div(x, y, f, rm);
            var bad := (a.class_.Inf? && b.class_.Inf?) || (a.class_.Zero? && b.class_.Zero?);
            var sign := a.sign != b.sign;
            && Exceptions(f, out, a.class_.Nan? || b.class_.Nan? || bad,
                          IsSnan(a.class_) || IsSnan(b.class_) || bad, a.class_.Finite? && b.class_.Zero?)
            && (!a.class_.Nan? && !b.class_.Nan? && !bad ==>
                  && (a.class_.Inf? || b.class_.Zero? ==> out.bits == InfBits(f, sign))
                  && (a.class_.Zero? || b.class_.Inf? ==> out == Out(ZeroBits(f, sign), NO_FLAGS)))
  {
    hide Unpack, RoundQuotient, Dyadic, InfBits, ZeroBits, CanonicalNan, CorrectResult, Mag;
    var a, b := Unpack(x, f), Unpack(y, f);
    UnpackSpecial(f, a.sign != b.sign);
    if a.class_.Finite? && b.class_.Finite? {
      FinitePositive(f, y);
      var exact := ExactQuotient(Mag(a.class_), Mag(b.class_));
      DivFinite(x, y, f, rm, exact);
      CorrectIsQuiet(f, rm, a.sign != b.sign, exact, Div(x, y, f, rm));
    }
  }

  /** A fused multiply-add is invalid for infinity times zero whatever the addend, for a
      signalling NaN, and for an infinite product cancelled by the addend. */
  lemma FmaExceptions(x: nat, y: nat, z: nat, f: Fmt, rm: Rm)
    requires IsPattern(f, z)
    ensures var a, b, c, out := Unpack(x, f), Unpack(y, f), Unpack(z, f), Fma(x, y, z, f, rm);
            var nan := a.class_.Nan? || b.class_.Nan? || c.class_.Nan?;
            var bad := (a.class_.Inf? && b.class_.Zero?) || (a.class_.Zero? && b.class_.Inf?);
            var infProduct := a.class_.Inf? || b.class_.Inf?;
            var cancel := !nan && infProduct && c.class_.Inf? && c.sign != (a.sign != b.sign);
            var snan := IsSnan(a.class_) || IsSnan(b.class_) || IsSnan(c.class_);
            && Exceptions(f, out, nan || bad || cancel, snan || bad || cancel, false)
            && (!nan && !bad && !cancel && (infProduct || c.class_.Inf?) ==>
                  out == Out(InfBits(f, if infProduct then a.sign != b.sign else c.sign), NO_FLAGS))
  {
    hide Unpack, RoundPack, RoundSum, Dyadic, InfBits, ZeroBits, CanonicalNan, CorrectResult, Product, Mag;
    var a, b, c := Unpack(x, f), Unpack(y, f), Unpack(z, f);
    UnpackSpecial(f, true);
    UnpackSpecial(f, false);
    if IsNumber(a.class_) && IsNumber(b.class_) && IsNumber(c.class_) {
      FmaNumberQuiet(x, y, z, f, rm);
    }
  }

  lemma FmaNumberQuiet(x: nat, y: nat, z: nat, f: Fmt, rm: Rm)
    requires IsPattern(f, z)
    requires IsNumber(Unpack(x, f).class_) && IsNumber(Unpack(y, f).class_) && IsNumber(Unpack(z, f).class_)
    ensures Exceptions(f, Fma(x, y, z, f, rm), false, false, false)
  {
    hide Unpack, Fma, ZeroBits, CanonicalNan, CorrectResult, Value;
    UnpackSpecial(f, true);
    UnpackSpecial(f, false);
    var p := Value(Unpack(x, f)) * Value(Unpack(y, f));
    FmaCorrect(x, y, z, f, rm, p);
    var s := p + Value(Unpack(z, f));
    if s != 0.0 { CorrectIsQuiet(f, rm, s < 0.0, Abs(s), Fma(x, y, z, f, rm)); }
  }

  // --- the working width ----------------------------------------------------------------------

  /** Exact products fit in 128 bits, and so do their normalised significands. */
  lemma ProductFitsIn128(x: nat, y: nat, f: Fmt)
    requires Unpack(x, f).class_.Finite? && Unpack(y, f).class_.Finite?
    ensures var p := Product(Unpack(x, f), Unpack(y, f));
            0 < p.sig < Pow2(128) && Normalise(T, p.sig).0 < Pow2(128)
  {
    hide Unpack, Pow2, Product, Normalise;
    ProductFits(f, x, y, T);
    NormaliseRange(T, Product(Unpack(x, f), Unpack(y, f)).sig);
    Pow2Mono(T - 10, 128);
    Pow2Mono(T + 1, 128);
  }

  /** So do the normalised operands of a sum, the aligned smaller one at any distance, and the sum
      or difference. */
  lemma SumFitsIn128(a: Signed, b: Signed, diff: nat)
    requires 0 < a.sig < Pow2(T - 10) && 0 < b.sig < Pow2(T - 10)
    ensures Norm(T, a).sig < Pow2(128) && Norm(T, b).sig < Pow2(128)
    ensures Align(T, Norm(T, a), diff).0 < Pow2(128) && Align(T, Norm(T, b), diff).0 < Pow2(128)
    ensures var r := AddExact(T, a, b); r.Sum? ==> r.sig < Pow2(128)
  {
    hide Pow2, AddExact, Norm, Shr, Low;
    NormKeeps(T, a);
    NormKeeps(T, b);
    Pow2Mono(T + 1, 128);
    ShrShrinks(Norm(T, a).sig, diff);
    ShrShrinks(Norm(T, b).sig, diff);
    AddExactCorrect(T, a, b);
    Pow2Mono(T + 2, 128);
  }

  lemma {:induction false} ShrShrinks(n: nat, k: nat)
    ensures Shr(n, k) <= n
    decreases k
  {
    if k > 0 { ShrShrinks(n / 2, k - 1); }
  }

  /** So do the scaled dividend and the quotient. */
  lemma QuotientFitsIn128(x: nat, y: nat, f: Fmt)
    ensures var a, b := Unpack(x, f), Unpack(y, f);
            a.class_.Finite? && b.class_.Finite? ==>
              && a.class_.sig < Pow2(64) && b.class_.sig < Pow2(64)
              && var num, nb := Shl(ToTop(a.class_.sig, 0, 63).0, 64), ToTop(b.class_.sig, 0, 63).0;
                 num < Pow2(128) && 0 < nb < Pow2(64) && num / nb < Pow2(65)
  {
    hide Unpack, Pow2, ToTop, Shl;
    var a, b := Unpack(x, f), Unpack(y, f);
    if a.class_.Finite? && b.class_.Finite? {
      SigFitsTop(f, x, 63);
      SigFitsTop(f, y, 63);
      ToTopRange(a.class_.sig, 0, 63);
      ToTopRange(b.class_.sig, 0, 63);
      var na, nb := ToTop(a.class_.sig, 0, 63).0, ToTop(b.class_.sig, 0, 63).0;
      ShlPow2(64, 64);
      ShlOrder(na, Pow2(64), 64);
      QuotientWide(na, nb, 63);
    }
  }
}
