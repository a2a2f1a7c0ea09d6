/** The single place where results are rounded: `round_pack` and its proof. */
module Rounding {
  import opened Powers
  import opened RoundingSpec
  import opened FloatFormat

  /** The position the significand's top bit is normalised to. The definitions below take
      it as the parameter t, and only need it to exceed the precision. */
  const T: Width := 120

  /** Enough for the 53 bits of the widest format with guard, round and sticky bits. */
  type Width = t: nat | t >= 64 witness 64

  /** The significand with its top bit at position t, and whether a one was shifted out. */
  function Normalise(t: Width, sig: nat): (nat, bool)
    requires sig > 0
  {
    var msb := Msb(sig);
    if msb > t then
      (Shr(sig, msb - t), Low(sig, msb - t) != 0)
    else
      (Shl(sig, t - msb), false)
  }

  /** What is kept when `shift` low bits are dropped, the first dropped bit, and whether
      anything lies beyond it. */
  function Split(t: Width, sigN: nat, sticky: bool, shift: nat): (nat, bool, bool)
    requires shift > 0
  {
    if shift >= t + 2 then
      (0, false, true)
    else
      var dropped := Low(sigN, shift);
      (Shr(sigN, shift), Shr(dropped, shift - 1) % 2 == 1, Low(dropped, shift - 1) != 0 || sticky)
  }

  function RoundUp(rm: Rm, sign: bool, kept: nat, half: bool, rest: bool): nat {
    if Increments(rm, sign, kept % 2 == 1, half, rest) then kept + 1 else kept
  }

  /** How many low bits of the normalised significand fall below the last place kept. */
  function ShiftFor(t: Width, f: Fmt, biased: int): nat {
    var base := t + 1 - Prec(f);
    if biased >= 1 then base else base + (1 - biased)
  }

  /** The rounded significand of a normal result: a carry moves the exponent, which may overflow. */
  function FinishNormal(f: Fmt, rm: Rm, sign: bool, kept: nat, biased: int, inexact: bool): Out
    requires biased >= 1
  {
    var carry := kept == Pow2(Prec(f));
    var k := if carry then kept / 2 else kept;
    var be := if carry then biased + 1 else biased;
    if be >= ExpMax(f) then
      Out(OverflowBits(f, rm, sign), NO_FLAGS.(of := true, nx := true))
    else
      Out(Pack(f, sign, be, Low(k, f.fracBits)), NO_FLAGS.(nx := inexact))
  }

  function FinishSubnormal(f: Fmt, sign: bool, kept: nat, inexact: bool, uf: bool): Out {
    Out(Pack(f, sign, 0, kept), NO_FLAGS.(nx := inexact, uf := uf))
  }

  /** Rounded to full precision instead, would the value be the smallest normal? */
  predicate ReachesNormal(t: Width, f: Fmt, rm: Rm, sign: bool, sigN: nat, sticky: bool, eLead: int) {
    var (kept, half, rest) := Split(t, sigN, sticky, t + 1 - Prec(f));
    eLead == Emin(f) - 1 && RoundUp(rm, sign, kept, half, rest) == Pow2(Prec(f))
  }

  /** Round and pack (sig + epsilon) * 2^exp, epsilon being a positive fraction of one unit
      of sig exactly when `sticky`. */
  function RoundPack(t: Width, sign: bool, exp: int, sig: nat, sticky: bool, f: Fmt, rm: Rm): Out
    decreases if sig == 0 then 1 else 0
  {
    if sig == 0 then
      RoundPack(t, sign, -100_000, 1, false, f, rm)
    else
      var (sigN, lost) := Normalise(t, sig);
      var st := sticky || lost;
      var eLead := exp + Msb(sig);
      var biased := eLead + Bias(f);
      var (kept0, half, rest) := Split(t, sigN, st, ShiftFor(t, f, biased));
      var inexact := half || rest;
      var kept := RoundUp(rm, sign, kept0, half, rest);
      if biased >= 1 then
        FinishNormal(f, rm, sign, kept, biased, inexact)
      else
        FinishSubnormal(f, sign, kept, inexact, inexact && !ReachesNormal(t, f, rm, sign, sigN, st, eLead))
  }

  // --- the exact value behind a significand and a sticky bit ---------------------------

  /** v is (sig + epsilon) * 2^exp. */
  ghost predicate Denotes(v: real, sig: nat, sticky: bool, exp: int) {
    if sticky then Dyadic(sig, exp) < v < Dyadic(sig + 1, exp) else v == Dyadic(sig, exp)
  }

  /** As `Denotes`, after the unit of the significand has become 2^g. */
  ghost predicate DenotesWide(v: real, sig: nat, sticky: bool, exp: int, g: nat) {
    if sticky then Dyadic(sig, exp) < v < Dyadic(sig + Pow2(g), exp) else v == Dyadic(sig, exp)
  }

  function Gap(t: Width, sig: nat): nat
    requires sig > 0
  {
    if Msb(sig) > t then 0 else t - Msb(sig)
  }

  lemma NormaliseRange(t: Width, sig: nat)
    requires sig > 0
    ensures Pow2(t) <= Normalise(t, sig).0 < Pow2(t + 1)
    ensures Low(Normalise(t, sig).0, Gap(t, sig)) == 0
  {
    var msb := Msb(sig);
    if msb > t {
      ShrRange(sig, t, msb - t);
    } else {
      ShlRange(sig, msb, t - msb);
      LowOfShl(sig, t - msb);
    }
  }

  lemma ShrRange(n: nat, t: nat, k: nat)
    requires Pow2(t + k) <= n < Pow2(t + 1 + k)
    ensures Pow2(t) <= Shr(n, k) < Pow2(t + 1)
  {
    ShlPow2(t, k);
    ShlPow2(t + 1, k);
    ShrOrder(n, Pow2(t), k);
    ShrOrder(n, Pow2(t + 1), k);
  }

  lemma ShlRange(n: nat, t: nat, k: nat)
    requires Pow2(t) <= n < Pow2(t + 1)
    ensures Pow2(t + k) <= Shl(n, k) < Pow2(t + 1 + k)
  {
    ShlPow2(t, k);
    ShlPow2(t + 1, k);
    ShlOrder(Pow2(t), n, k);
    ShlOrder(n, Pow2(t + 1), k);
  }

  lemma NormaliseKeepsValue(t: Width, v: real, sig: nat, sticky: bool, exp: int)
    requires sig > 0 && Denotes(v, sig, sticky, exp)
    ensures var (n, lost) := Normalise(t, sig);
            DenotesWide(v, n, sticky || lost, exp + Msb(sig) - t, Gap(t, sig))
  {
    var msb := Msb(sig);
    if msb > t {
      DropLowBits(v, sig, sticky, exp, msb - t);
    } else {
      RaiseUnit(v, sig, sticky, exp, t - msb);
    }
  }

  lemma DropLowBits(v: real, sig: nat, sticky: bool, exp: int, k: nat)
    requires Denotes(v, sig, sticky, exp)
    ensures DenotesWide(v, Shr(sig, k), sticky || Low(sig, k) != 0, exp + k, 0)
  {
    var n := Shr(sig, k);
    HighLow(sig, k);
    ShlAdd(n, 1, k);
    ShlOne(k);
    DyadicShl(n, k, exp);
    DyadicShl(n + 1, k, exp);
    DyadicLt(Shl(n, k), sig, exp);
    DyadicLt(Shl(n + 1, k), sig + 1, exp);
    DyadicLt(sig, Shl(n + 1, k), exp);
  }

  lemma RaiseUnit(v: real, sig: nat, sticky: bool, exp: int, g: nat)
    requires Denotes(v, sig, sticky, exp)
    ensures DenotesWide(v, Shl(sig, g), sticky, exp - g, g)
  {
    DyadicShl(sig, g, exp - g);
    DyadicShl(sig + 1, g, exp - g);
    ShlAdd(sig, 1, g);
    ShlOne(g);
  }

  // --- splitting -------------------------------------------------------------------------

  /** Split locates v on the grid of multiples of 2^(e + shift). */
  lemma SplitLocates(t: Width, v: real, n: nat, sticky: bool, e: int, g: nat, shift: nat)
    requires g < shift && Low(n, g) == 0 && 0 < n < Pow2(t + 1)
    requires DenotesWide(v, n, sticky, e, g)
    ensures var (kept, half, rest) := Split(t, n, sticky, shift);
            At(v, Dyadic(kept, e + shift), Dyadic(1, e + shift), half, rest)
    ensures Split(t, n, sticky, shift).0 == Shr(n, shift)
  {
    if shift >= t + 2 {
      Pow2Mono(t + 1, shift - 1);
      AllDropped(v, n, sticky, e, g, shift);
    } else {
      SomeKept(v, n, sticky, e, g, shift);
    }
  }

  lemma AllDropped(v: real, n: nat, sticky: bool, e: int, g: nat, shift: nat)
    requires g < shift && Low(n, g) == 0 && 0 < n < Pow2(shift - 1)
    requires DenotesWide(v, n, sticky, e, g)
    ensures At(v, Dyadic(0, e + shift), Dyadic(1, e + shift), false, true)
    ensures Shr(n, shift) == 0
  {
    hide Dyadic, Low, Shr, Shl;
    var H := Pow2(shift - 1);
    ShlOne(shift);
    ShlOne(shift - 1);
    HighLowUnique(0, n, shift);
    HighLowUnique(0, n, shift - 1);
    LowGap(n, g, shift - 1);
    DyadicSign(n, e);
    DyadicLt(n, H, e);
    DyadicLt(H, n + Pow2(g), e);
    DyadicSign(0, e + shift);
    DyadicPow2(shift - 1, e);
    DyadicUp(1, e + shift - 1);
  }

  lemma SomeKept(v: real, n: nat, sticky: bool, e: int, g: nat, shift: nat)
    requires g < shift && Low(n, g) == 0
    requires DenotesWide(v, n, sticky, e, g)
    ensures var kept, dropped := Shr(n, shift), Low(n, shift);
            At(v, Dyadic(kept, e + shift), Dyadic(1, e + shift),
               Shr(dropped, shift - 1) % 2 == 1, Low(dropped, shift - 1) != 0 || sticky)
  {
    hide Dyadic, Shl, Shr, Low;
    var H := Pow2(shift - 1);
    var kept, dropped := Shr(n, shift), Low(n, shift);
    HighLow(n, shift);
    HighLow(dropped, shift - 1);
    ShlAdd(1, 1, shift - 1);
    ShlOne(shift - 1);
    ShrOrder(dropped, 2, shift - 1);
    LowLow(n, shift, shift - 1);
    LowGap(n, g, shift - 1);
    OnGrid(v, n, sticky, e, g, H, Shl(kept, shift), Shr(dropped, shift - 1) % 2 == 1, Low(dropped, shift - 1));
    DyadicShl(kept, shift, e);
    DyadicPow2(shift, e);
  }

  lemma OnGrid(v: real, n: nat, sticky: bool, e: int, g: nat, H: nat, base: nat, half: bool, r: nat)
    requires r + Pow2(g) <= H && n == base + (if half then H else 0) + r
    requires DenotesWide(v, n, sticky, e, g)
    ensures At(v, Dyadic(base, e), Dyadic(2 * H, e), half, r != 0 || sticky)
  {
    hide Dyadic, Pow2;
    var w := Pow2(g);
    var h := if half then H else 0;
    DyadicAdd(base + h, r, e);
    DyadicAdd(base, h, e);
    DyadicAdd(base + h, r + w, e);
    DyadicAdd(H, H, e);
    DyadicSign(0, e);
    DyadicSign(r, e);
    DyadicLt(r, H, e);
    DyadicLt(H, r + w, e);
  }

  // --- choosing the neighbour ---------------------------------------------------------------

  lemma GridRounds(p: nat, r: Range, rm: Rm, sign: bool, v: real, k: nat, q: int, half: bool, rest: bool)
    requires p >= 2 && Canonical(p, r, k, q) && At(v, Dyadic(k, q), Dyadic(1, q), half, rest)
    ensures var m := Dyadic(RoundUp(rm, sign, k, half, rest), q);
            RoundsTo(p, r, rm, sign, v, m) && (m != v <==> half || rest)
  {
    BracketOf(p, r, k, q);
    DyadicAdd(k, 1, q);
    DyadicSign(1, q);
    IncrementIsCorrect(p, r, rm, sign, v, Dyadic(k, q), Dyadic(1, q), k % 2 == 1, half, rest);
  }

  /** Rounding never moves past a representable number. */
  lemma RoundsAtLeast(p: nat, r: Range, rm: Rm, sign: bool, v: real, m: real, x: real)
    requires p >= 2 && RoundsTo(p, r, rm, sign, v, m) && IsFloat(p, r, x) && x <= v
    ensures x <= m
  {
  }

  lemma PowerIsFloat(p: nat, e: int)
    requires p >= 2
    ensures IsFloat(p, Unbounded, Dyadic(1, e))
  {
    Pow2Strict(p - 1, p);
    DyadicPow2(p - 1, e - (p - 1));
    assert FloatAt(p, Unbounded, Dyadic(1, e), Pow2(p - 1), e - (p - 1));
  }

  lemma NotTiny(f: Fmt, rm: Rm, sign: bool, v: real)
    requires v >= Dyadic(1, Emin(f))
    ensures !Tiny(f, rm, sign, v)
  {
    PowerIsFloat(Prec(f), Emin(f));
    forall m: real | RoundsTo(Prec(f), Unbounded, rm, sign, v, m) ensures m >= Dyadic(1, Emin(f)) {
      RoundsAtLeast(Prec(f), Unbounded, rm, sign, v, m, Dyadic(1, Emin(f)));
    }
  }

  lemma DyadicPowerLt(d: int, e: int)
    requires d < e
    ensures Dyadic(1, d) < Dyadic(1, e)
  {
    DyadicMono(1, d, e - 1);
    DyadicUp(1, e - 1);
    DyadicSign(1, e - 1);
  }

  /** Rounded at full precision, a value below the normal range stays below it unless it
      carries all the way up to the smallest normal number. */
  lemma TinyIff(f: Fmt, rm: Rm, sign: bool, v: real, k: nat, eLead: int)
    requires eLead < Emin(f) && k <= Pow2(Prec(f))
    requires RoundsTo(Prec(f), Unbounded, rm, sign, v, Dyadic(k, eLead - f.fracBits))
    ensures Tiny(f, rm, sign, v) <==> !(eLead == Emin(f) - 1 && k == Pow2(Prec(f)))
  {
    var p, q := Prec(f), eLead - f.fracBits;
    var m := Dyadic(k, q);
    DyadicPow2(p, q);
    DyadicLt(k, Pow2(p), q);
    if eLead + 1 < Emin(f) { DyadicPowerLt(eLead + 1, Emin(f)); }
    assert m < Dyadic(1, Emin(f)) <==> !(eLead == Emin(f) - 1 && k == Pow2(p));
    forall n: real | RoundsTo(p, Unbounded, rm, sign, v, n) ensures n == m {
      RoundsToUnique(p, Unbounded, rm, sign, v, m, n);
    }
  }

  // --- packing -------------------------------------------------------------------------------

  lemma UnpackNormal(f: Fmt, sign: bool, be: nat, k: nat)
    requires 1 <= be < ExpMax(f) && FracSpan(f) <= k < 2 * FracSpan(f)
    ensures var bits := Pack(f, sign, be, Low(k, f.fracBits));
            IsPattern(f, bits) && Unpack(bits, f) == Unpacked(sign, Finite(k, be - Bias(f) - f.fracBits))
  {
    ShlOne(f.fracBits);
    HighLowUnique(1, k - FracSpan(f), f.fracBits);
    PackFields(f, sign, be, k - FracSpan(f));
  }

  lemma UnpackSubnormal(f: Fmt, sign: bool, k: nat)
    requires k <= FracSpan(f)
    ensures var bits := Pack(f, sign, 0, k);
            && IsPattern(f, bits)
            && Unpack(bits, f) == Unpacked(sign, if k == 0 then Zero else Finite(k, Qmin(f)))
  {
    hide Pow2, Shl, SignField, ExpField, FracField;
    ExpBounds(f);
    if k < FracSpan(f) {
      PackFields(f, sign, 0, k);
    } else {
      PackFields(f, sign, 1, 0);
      ShlOne(f.fracBits);
      assert Pack(f, sign, 0, k) == Pack(f, sign, 1, 0);
    }
  }

  lemma MaxFiniteBound(f: Fmt, k: nat, be: int)
    requires FracSpan(f) <= k < 2 * FracSpan(f) && be >= 1
    ensures Dyadic(k, be - Bias(f) - f.fracBits) > MaxFinite(f) <==> be >= ExpMax(f)
  {
    ExpBounds(f);
    var p, top := Prec(f), Bias(f) - f.fracBits;
    var q := be - Bias(f) - f.fracBits;
    assert Pow2(p) == 2 * FracSpan(f);
    hide Pow2, Dyadic;
    if be >= ExpMax(f) {
      SmallerExponentIsBelow(p, k, q, Pow2(p) - 1, top);
    } else {
      DyadicLt(Pow2(p) - 1, k, top);
      DyadicMono(k, q, top);
    }
  }

  // --- the theorem ----------------------------------------------------------------------------

  /** The working precision is wide enough for the sticky bit to stay below the half bit. */
  ghost predicate Ready(sig: nat, sticky: bool, f: Fmt) {
    0 < sig && (sticky ==> sig >= Pow2(Prec(f)))
  }

  lemma GapBelowShift(t: Width, sig: nat, sticky: bool, f: Fmt)
    requires Ready(sig, sticky, f) && sticky
    ensures Gap(t, sig) < t + 1 - Prec(f)
  {
    MsbAtLeast(sig, Prec(f));
  }

  lemma NormalisedAt(t: Width, v: real, sig: nat, sticky: bool, exp: int, f: Fmt, shift: nat)
    requires Ready(sig, sticky, f) && Denotes(v, sig, sticky, exp) && shift >= t + 1 - Prec(f)
    ensures var (n, lost) := Normalise(t, sig);
            var (kept, half, rest) := Split(t, n, sticky || lost, shift);
            && At(v, Dyadic(kept, exp + Msb(sig) - t + shift), Dyadic(1, exp + Msb(sig) - t + shift), half, rest)
            && kept == Shr(n, shift)
  {
    var (n, lost) := Normalise(t, sig);
    NormaliseRange(t, sig);
    NormaliseKeepsValue(t, v, sig, sticky, exp);
    if sticky {
      GapBelowShift(t, sig, sticky, f);
      SplitLocates(t, v, n, true, exp + Msb(sig) - t, Gap(t, sig), shift);
    } else {
      SplitLocates(t, v, n, lost, exp + Msb(sig) - t, 0, shift);
    }
  }

  lemma KeptNormal(t: Width, sig: nat, f: Fmt)
    requires sig > 0
    ensures FracSpan(f) <= Shr(Normalise(t, sig).0, t + 1 - Prec(f)) < 2 * FracSpan(f)
  {
    NormaliseRange(t, sig);
    ShrRange(Normalise(t, sig).0, f.fracBits, t + 1 - Prec(f));
  }

  lemma KeptSubnormal(t: Width, sig: nat, f: Fmt, extra: nat)
    requires sig > 0 && extra >= 1
    ensures Shr(Normalise(t, sig).0, t + 1 - Prec(f) + extra) < FracSpan(f)
  {
    var n, shift := Normalise(t, sig).0, t + 1 - Prec(f) + extra;
    NormaliseRange(t, sig);
    ShlPow2(f.fracBits, shift);
    Pow2Mono(t + 1, f.fracBits + shift);
    ShrOrder(n, FracSpan(f), shift);
  }

  lemma DeliverNormal(f: Fmt, rm: Rm, sign: bool, v: real, kept: nat, biased: int, inexact: bool)
    requires biased >= 1 && FracSpan(f) <= kept <= 2 * FracSpan(f)
    requires inexact <==> Dyadic(kept, biased - Bias(f) - f.fracBits) != v
    requires !Tiny(f, rm, sign, v)
    ensures Delivers(f, rm, sign, v, Dyadic(kept, biased - Bias(f) - f.fracBits),
                     FinishNormal(f, rm, sign, kept, biased, inexact))
  {
    ExpBounds(f);
    var carry := kept == Pow2(Prec(f));
    var k := if carry then kept / 2 else kept;
    var be := if carry then biased + 1 else biased;
    DyadicDouble(FracSpan(f), biased - Bias(f) - f.fracBits);
    assert Dyadic(kept, biased - Bias(f) - f.fracBits) == Dyadic(k, be - Bias(f) - f.fracBits);
    MaxFiniteBound(f, k, be);
    if be < ExpMax(f) { UnpackNormal(f, sign, be, k); }
  }

  lemma DeliverSubnormal(f: Fmt, rm: Rm, sign: bool, v: real, kept: nat, inexact: bool, uf: bool)
    requires kept <= FracSpan(f) && (inexact <==> Dyadic(kept, Qmin(f)) != v)
    requires uf <==> inexact && Tiny(f, rm, sign, v)
    ensures Delivers(f, rm, sign, v, Dyadic(kept, Qmin(f)), FinishSubnormal(f, sign, kept, inexact, uf))
  {
    ExpBounds(f);
    UnpackSubnormal(f, sign, kept);
    DyadicSign(kept, Qmin(f));
    MaxFiniteBound(f, FracSpan(f), 1);
    DyadicLt(FracSpan(f), kept, Qmin(f));
  }

  lemma RoundUpAtMostOne(rm: Rm, sign: bool, kept: nat, half: bool, rest: bool)
    ensures kept <= RoundUp(rm, sign, kept, half, rest) <= kept + 1
  {
  }

  /** round_pack delivers the correctly rounded result with exact flags, for every mode,
      sign, exponent and significand. */
  lemma RoundPackCorrect(t: Width, sign: bool, exp: int, sig: nat, sticky: bool, f: Fmt, rm: Rm, v: real)
    requires Ready(sig, sticky, f) && Denotes(v, sig, sticky, exp)
    ensures CorrectResult(f, rm, sign, v, RoundPack(t, sign, exp, sig, sticky, f, rm))
  {
    if exp + Msb(sig) + Bias(f) >= 1 {
      NormalCase(t, sign, exp, sig, sticky, f, rm, v);
    } else {
      SubnormalCase(t, sign, exp, sig, sticky, f, rm, v);
    }
  }

  lemma NormalCase(t: Width, sign: bool, exp: int, sig: nat, sticky: bool, f: Fmt, rm: Rm, v: real)
    requires Ready(sig, sticky, f) && Denotes(v, sig, sticky, exp) && exp + Msb(sig) + Bias(f) >= 1
    ensures CorrectResult(f, rm, sign, v, RoundPack(t, sign, exp, sig, sticky, f, rm))
  {
    hide Delivers, RoundsTo, Tiny, Dyadic, At, Split, Normalise, Denotes, Ready, RoundUp, OverflowBits, Pow2, Shr, Pack;
    hide FinishNormal, FinishSubnormal, ReachesNormal, Msb;
    ExpBounds(f);
    var (n, lost) := Normalise(t, sig);
    var eLead := exp + Msb(sig);
    var shift, q := t + 1 - Prec(f), eLead - f.fracBits;
    var (kept0, half, rest) := Split(t, n, sticky || lost, shift);
    NormalisedAt(t, v, sig, sticky, exp, f, shift);
    KeptNormal(t, sig, f);
    var kept := RoundUp(rm, sign, kept0, half, rest);
    RoundUpAtMostOne(rm, sign, kept0, half, rest);
    GridRounds(Prec(f), Bounded(Qmin(f)), rm, sign, v, kept0, q, half, rest);
    AboveNormalThreshold(f, v, kept0, q, half, rest);
    NotTiny(f, rm, sign, v);
    DeliverNormal(f, rm, sign, v, kept, eLead + Bias(f), half || rest);
  }

  lemma AboveNormalThreshold(f: Fmt, v: real, k: nat, q: int, half: bool, rest: bool)
    requires k >= FracSpan(f) && q >= Qmin(f) && At(v, Dyadic(k, q), Dyadic(1, q), half, rest)
    ensures v >= Dyadic(1, Emin(f))
  {
    DyadicLt(k, FracSpan(f), q);
    DyadicMono(FracSpan(f), Qmin(f), q);
    DyadicPow2(f.fracBits, Qmin(f));
    DyadicSign(1, q);
  }

  /** The second split, at full precision, decides tininess. */
  lemma TininessDecided(t: Width, sign: bool, exp: int, sig: nat, sticky: bool, f: Fmt, rm: Rm, v: real)
    requires Ready(sig, sticky, f) && Denotes(v, sig, sticky, exp) && exp + Msb(sig) + Bias(f) < 1
    ensures var (n, lost) := Normalise(t, sig);
            Tiny(f, rm, sign, v) <==> !ReachesNormal(t, f, rm, sign, n, sticky || lost, exp + Msb(sig))
  {
    hide RoundsTo, Tiny, Dyadic, At, Split, Normalise, Denotes, Ready, RoundUp, Pow2, Shr, Msb;
    ExpBounds(f);
    var (n, lost) := Normalise(t, sig);
    var eLead, base := exp + Msb(sig), t + 1 - Prec(f);
    var (kp, halfP, restP) := Split(t, n, sticky || lost, base);
    NormalisedAt(t, v, sig, sticky, exp, f, base);
    KeptNormal(t, sig, f);
    GridRounds(Prec(f), Unbounded, rm, sign, v, kp, eLead - f.fracBits, halfP, restP);
    RoundUpAtMostOne(rm, sign, kp, halfP, restP);
    TinyIff(f, rm, sign, v, RoundUp(rm, sign, kp, halfP, restP), eLead);
  }

  lemma SubnormalCase(t: Width, sign: bool, exp: int, sig: nat, sticky: bool, f: Fmt, rm: Rm, v: real)
    requires Ready(sig, sticky, f) && Denotes(v, sig, sticky, exp) && exp + Msb(sig) + Bias(f) < 1
    ensures CorrectResult(f, rm, sign, v, RoundPack(t, sign, exp, sig, sticky, f, rm))
  {
    hide Delivers, RoundsTo, Tiny, Dyadic, At, Split, Normalise, Denotes, Ready, RoundUp, OverflowBits, Pow2, Shr, Pack;
    hide FinishNormal, FinishSubnormal, ReachesNormal, Msb;
    ExpBounds(f);
    var (n, lost) := Normalise(t, sig);
    var shift := ShiftFor(t, f, exp + Msb(sig) + Bias(f));
    var (kept0, half, rest) := Split(t, n, sticky || lost, shift);
    NormalisedAt(t, v, sig, sticky, exp, f, shift);
    KeptSubnormal(t, sig, f, 1 - (exp + Msb(sig) + Bias(f)));
    GridRounds(Prec(f), Bounded(Qmin(f)), rm, sign, v, kept0, Qmin(f), half, rest);
    RoundUpAtMostOne(rm, sign, kept0, half, rest);
    TininessDecided(t, sign, exp, sig, sticky, f, rm, v);
    DeliverSubnormal(f, rm, sign, v, RoundUp(rm, sign, kept0, half, rest), half || rest,
                     (half || rest) && Tiny(f, rm, sign, v));
  }
}
