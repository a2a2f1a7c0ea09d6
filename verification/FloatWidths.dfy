/** No exponent or shift count the floating-point code forms leaves 32 bits. */
module FloatWidths {
  import opened Powers
  import opened FloatFormat
  import opened Rounding
  import opened FloatAdd
  import opened FloatOps
  import opened FloatRoot

  predicate InI32(x: int) { -0x8000_0000 <= x < 0x8000_0000 }

  /** A bound with room for the few additions the code makes. */
  predicate Within(x: int, n: nat) { 0 - n <= x <= n }

  lemma BiasBound(f: Fmt)
    ensures 1 <= Bias(f) <= 1023 && ExpMax(f) <= 2047
  {
    Pow2Mono(f.expBits, 11);
    Pow2Mono(f.expBits - 1, 10);
    Pow2Mono(1, f.expBits - 1);
    assert Pow2(10) == 1024 && Pow2(11) == 2048 && Pow2(1) == 2;
  }

  /** The exponent of a finite pattern runs from the last subnormal place to that of the largest
      number. */
  lemma FiniteExponent(f: Fmt, bits: nat)
    ensures var c := Unpack(bits, f).class_;
            c.Finite? ==> Qmin(f) <= c.exp <= Bias(f) - f.fracBits && Within(c.exp, 1100)
  {
    hide Shr, Low, Shl, SignField, Pow2;
    ExpBounds(f);
    BiasBound(f);
    HighLow(Shr(bits, f.fracBits), f.expBits);
  }

  lemma ProductExponent(x: nat, y: nat, f: Fmt)
    requires Unpack(x, f).class_.Finite? && Unpack(y, f).class_.Finite?
    ensures Within(Product(Unpack(x, f), Unpack(y, f)).exp, 2200)
  {
    hide Unpack;
    FiniteExponent(f, x);
    FiniteExponent(f, y);
  }

  /** Normalised operands of a sum, the distance between them, and the sum. */
  lemma SumExponents(a: Signed, b: Signed)
    requires a.sig < Pow2(T - 10) && b.sig < Pow2(T - 10) && Within(a.exp, 2200) && Within(b.exp, 2200)
    ensures InI32(Norm(T, a).exp) && InI32(Norm(T, b).exp)
    ensures a.sig > 0 && b.sig > 0 ==> Within(Norm(T, a).exp - Norm(T, b).exp, 5000)
    ensures var r := AddExact(T, a, b); r.Sum? ==> Within(r.exp, 2400)
  {
    hide Pow2, Shl, Align;
    NormExponent(a);
    NormExponent(b);
  }

  lemma NormExponent(a: Signed)
    requires a.sig < Pow2(T - 10)
    ensures if a.sig == 0 then Norm(T, a).exp == -0x4000_0000 else a.exp - T <= Norm(T, a).exp <= a.exp
  {
    hide Pow2, Shl;
    if a.sig > 0 { Operand(T, a.sig); }
  }

  /** The dividend and divisor moved to the top, and the exponent handed on. */
  lemma QuotientExponents(x: nat, y: nat, f: Fmt)
    requires Unpack(x, f).class_.Finite? && Unpack(y, f).class_.Finite?
    ensures var a, b := Unpack(x, f).class_, Unpack(y, f).class_;
            && 0 < a.sig < Pow2(64) && 0 < b.sig < Pow2(64)
            && var da, db := ToTop(a.sig, a.exp, 63).1, ToTop(b.sig, b.exp, 63).1;
               Within(da, 1200) && Within(db, 1200) && Within(da - db - 64, 2500)
  {
    hide Unpack, Pow2, Shl;
    FiniteExponent(f, x);
    FiniteExponent(f, y);
    SigFitsTop(f, x, 63);
    SigFitsTop(f, y, 63);
    var a, b := Unpack(x, f).class_, Unpack(y, f).class_;
    MsbBelow(a.sig, 64);
    MsbBelow(b.sig, 64);
  }

  /** The even exponent of a scaled radicand, and the exponent of its root. */
  lemma RootExponents(bits: nat, f: Fmt)
    requires Unpack(bits, f).class_.Finite?
    ensures var c := Unpack(bits, f).class_;
            && c.sig > 0 && Within(AtLeast53(c.sig, c.exp).1, 1200)
            && var e := EvenScaled(c.sig, c.exp).1; Within(e, 1200) && Within(e / 2 - 36, 700)
  {
    hide Unpack, Shl, Pow2;
    FiniteExponent(f, bits);
    FiniteMsb(f, bits);
  }

  /** What round_pack forms from an exponent no larger than any caller's, its own -100000 for a
      vanishing value included: the leading bit's exponent, the biased one and its complement, the
      exponent of the normalised significand, and the shift. */
  lemma RoundPackExponents(exp: int, sig: nat, f: Fmt)
    requires Within(exp, 100_000) && 0 < sig < Pow2(128)
    ensures var eLead := exp + Msb(sig);
            var biased := eLead + Bias(f);
            && InI32(eLead) && InI32(eLead - T) && InI32(biased + 1) && InI32(1 - biased) && InI32(1 - Bias(f))
            && 0 < ShiftFor(T, f, biased) < 0x8000_0000
  {
    hide Pow2;
    MsbBelow(sig, 128);
    BiasBound(f);
  }
}
