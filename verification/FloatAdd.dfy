/** Exact addition of significands (`add_exact`), and addition and subtraction built on it. */
module FloatAdd {
  import opened Powers
  import opened RoundingSpec
  import opened FloatFormat
  import opened Rounding

  /** A signed exact value: sig * 2^exp with a sign. */
  datatype Signed = Signed(sign: bool, sig: nat, exp: int)

  /** What is handed to round_pack. */
  datatype Exact = ExactZero | Sum(sign: bool, sig: nat, exp: int, sticky: bool)

  ghost function Real(a: Signed): real {
    if a.sign then -Dyadic(a.sig, a.exp) else Dyadic(a.sig, a.exp)
  }

  /** Put the top bit at position t. */
  function Norm(t: Width, a: Signed): Signed
    requires a.sig < Pow2(t - 10)
  {
    if a.sig == 0 then
      Signed(a.sign, 0, -1073741824)
    else
      Operand(t, a.sig);
      var g := t - Msb(a.sig);
      Signed(a.sign, Shl(a.sig, g), a.exp - g)
  }

  /** Does `a` have the larger magnitude order, or an equal one and no smaller significand? */
  predicate Dominates(a: Signed, b: Signed) {
    a.exp > b.exp || (a.exp == b.exp && a.sig >= b.sig)
  }

  /** The smaller significand moved to the larger exponent, and whether ones were lost. */
  function Align(t: Width, small: Signed, diff: nat): (nat, bool) {
    if diff >= t + 7 then (0, true) else (Shr(small.sig, diff), Low(small.sig, diff) != 0)
  }

  /** Add or subtract the aligned magnitudes. When the smaller operand lost ones to the
      alignment, the difference is one unit less and stays sticky. */
  function Combine(t: Width, big: Signed, small: Signed): Exact
    requires big.exp >= small.exp
  {
    var (aligned, sticky) := Align(t, small, big.exp - small.exp);
    if big.sign == small.sign then
      Sum(big.sign, big.sig + aligned, big.exp, sticky)
    else
      var d := Monus(big.sig, aligned + (if sticky then 1 else 0));
      if d == 0 && !sticky then ExactZero else Sum(big.sign, d, big.exp, sticky)
  }

  /** Subtraction of unsigned numbers; the callers never go below zero (see AlignedFits). */
  function Monus(a: nat, b: nat): nat { if a < b then 0 else a - b }

  function AddExact(t: Width, a0: Signed, b0: Signed): Exact
    requires a0.sig < Pow2(t - 10) && b0.sig < Pow2(t - 10)
  {
    var a, b := Norm(t, a0), Norm(t, b0);
    var (big, small) := if Dominates(a, b) then (a, b) else (b, a);
    if small.sig == 0 then
      if big.sig == 0 then ExactZero else Sum(big.sign, big.sig, big.exp, false)
    else
      Combine(t, big, small)
  }

  // --- exactness --------------------------------------------------------------------------

  /** An operand has its top bit below position t - 10. */
  lemma Operand(t: Width, sig: nat)
    requires 0 < sig < Pow2(t - 10)
    ensures Msb(sig) <= t - 11
  {
    MsbBelow(sig, t - 10);
  }

  ghost predicate Normal(t: Width, a: Signed) {
    Pow2(t) <= a.sig < Pow2(t + 1) && Low(a.sig, 2) == 0
  }

  lemma NormKeeps(t: Width, a: Signed)
    requires 0 < a.sig < Pow2(t - 10)
    ensures Normal(t, Norm(t, a)) && Norm(t, a).sign == a.sign && Real(Norm(t, a)) == Real(a)
  {
    Operand(t, a.sig);
    var g := t - Msb(a.sig);
    ShlRange(a.sig, Msb(a.sig), g);
    LowOfShl(a.sig, g);
    LowLow(Shl(a.sig, g), g, 2);
    DyadicShl(a.sig, g, a.exp - g);
  }

  lemma DominatesIsLarger(t: Width, big: Signed, small: Signed)
    requires Normal(t, big) && Normal(t, small) && Dominates(big, small)
    ensures Dyadic(big.sig, big.exp) >= Dyadic(small.sig, small.exp) > 0.0
  {
    DyadicSign(small.sig, small.exp);
    if big.exp > small.exp {
      SmallerExponentIsBelow(t + 1, big.sig, big.exp, small.sig, small.exp);
    } else {
      DyadicLt(big.sig, small.sig, big.exp);
    }
  }

  lemma AlignDenotes(t: Width, small: Signed, diff: nat)
    requires Normal(t, small)
    ensures var (aligned, sticky) := Align(t, small, diff);
            Denotes(Dyadic(small.sig, small.exp), aligned, sticky, small.exp + diff)
  {
    if diff >= t + 7 {
      Pow2Mono(t + 1, diff);
      DyadicPow2(diff, small.exp);
      DyadicLt(small.sig, Pow2(diff), small.exp);
      DyadicSign(small.sig, small.exp);
      DyadicSign(0, small.exp + diff);
    } else {
      DropLowBits(Dyadic(small.sig, small.exp), small.sig, false, small.exp, diff);
    }
  }

  lemma LostNeedsThree(sig: nat, diff: nat)
    requires Low(sig, 2) == 0 && Low(sig, diff) != 0
    ensures diff >= 3
  {
    if diff <= 2 { LowLow(sig, 2, diff); }
  }

  lemma ShrBelow(n: nat, k: nat, d: nat)
    requires n < Pow2(k + d)
    ensures Shr(n, d) < Pow2(k)
  {
    ShlPow2(k, d);
    ShrOrder(n, Pow2(k), d);
  }

  /** Ones are only lost to a shift of at least three places, so the difference keeps
      nearly all its bits. */
  lemma AlignedFits(t: Width, big: Signed, small: Signed)
    requires Normal(t, big) && Normal(t, small) && Dominates(big, small)
    ensures var (aligned, sticky) := Align(t, small, big.exp - small.exp);
            && aligned <= big.sig
            && (sticky ==> aligned < Pow2(t - 2))
  {
    var diff := big.exp - small.exp;
    if diff < t + 7 {
      if Low(small.sig, diff) != 0 {
        LostNeedsThree(small.sig, diff);
        Pow2Mono(t + 1, t - 2 + diff);
        ShrBelow(small.sig, t - 2, diff);
        Pow2Mono(t - 2, t);
      } else if diff >= 1 {
        Pow2Mono(t + 1, t + diff);
        ShrBelow(small.sig, t, diff);
      } else {
        assert Pow2(0) == 1;
      }
    }
  }

  lemma SumDenotes(x: real, y: real, s: nat, t: nat, sticky: bool, e: int)
    requires x == Dyadic(s, e) && Denotes(y, t, sticky, e)
    ensures Denotes(x + y, s + t, sticky, e)
  {
    DyadicAdd(s, t, e);
    DyadicAdd(s, t + 1, e);
  }

  lemma DifferenceDenotes(x: real, y: real, s: nat, t: nat, sticky: bool, e: int)
    requires x == Dyadic(s, e) && Denotes(y, t, sticky, e) && (if sticky then t < s else t <= s)
    ensures Denotes(x - y, s - t - (if sticky then 1 else 0), sticky, e)
  {
    DyadicAdd(s - t, t, e);
    if sticky { DyadicAdd(s - t - 1, t + 1, e); }
  }

  function Abs(x: real): real { if x < 0.0 then -x else x }

  /** r is the exact value s, ready to be rounded. */
  ghost predicate Represents(t: Width, s: real, r: Exact) {
    match r
    case ExactZero => s == 0.0
    case Sum(sign, sig, exp, sticky) =>
      && s != 0.0 && sign == (s < 0.0)
      && Denotes(Abs(s), sig, sticky, exp)
      && 0 < sig < Pow2(t + 2) && (sticky ==> sig >= Pow2(t - 2))
  }

  lemma CombineCorrect(t: Width, big: Signed, small: Signed)
    requires Normal(t, big) && Normal(t, small) && Dominates(big, small)
    ensures Represents(t, Real(big) + Real(small), Combine(t, big, small))
  {
    var (aligned, sticky) := Align(t, small, big.exp - small.exp);
    var x, y := Dyadic(big.sig, big.exp), Dyadic(small.sig, small.exp);
    DominatesIsLarger(t, big, small);
    AlignDenotes(t, small, big.exp - small.exp);
    AlignedFits(t, big, small);
    Pow2Fourth(t);
    if big.sign == small.sign {
      SumDenotes(x, y, big.sig, aligned, sticky, big.exp);
      SignedSum(big, small, x, y);
    } else {
      Subtracted(t, big, x, y, aligned, sticky);
      SignedSum(big, small, x, y);
    }
  }

  lemma SignedSum(big: Signed, small: Signed, x: real, y: real)
    requires x == Dyadic(big.sig, big.exp) && y == Dyadic(small.sig, small.exp) && x >= y > 0.0
    ensures var s := Real(big) + Real(small);
            && Abs(s) == (if big.sign == small.sign then x + y else x - y)
            && (s != 0.0 ==> big.sign == (s < 0.0))
  {
  }

  lemma Subtracted(t: Width, big: Signed, x: real, y: real, aligned: nat, sticky: bool)
    requires x == Dyadic(big.sig, big.exp) && Denotes(y, aligned, sticky, big.exp) && x >= y
    requires Pow2(t) <= big.sig < Pow2(t + 1) && aligned <= big.sig && (sticky ==> aligned < Pow2(t - 2))
    ensures var d := Monus(big.sig, aligned + (if sticky then 1 else 0));
            && Denotes(x - y, d, sticky, big.exp)
            && d < Pow2(t + 2)
            && (if sticky then d >= Pow2(t - 2) else x == y <==> d == 0)
            && (sticky ==> x > y)
  {
    Pow2Fourth(t);
    DifferenceDenotes(x, y, big.sig, aligned, sticky, big.exp);
    var d := Monus(big.sig, aligned + (if sticky then 1 else 0));
    DyadicSign(d, big.exp);
  }

  lemma Pow2Fourth(t: Width)
    ensures Pow2(t) == 4 * Pow2(t - 2) && Pow2(t + 1) == 2 * Pow2(t) && Pow2(t + 2) == 4 * Pow2(t)
    ensures Pow2(t - 2) >= 4
  {
    Pow2Mono(2, t - 2);
    assert Pow2(2) == 4;
  }

  /** add_exact returns the exact sum, or a neighbour bracketing it with the sticky bit, and
      always with enough bits for round_pack. */
  lemma AddExactCorrect(t: Width, a: Signed, b: Signed)
    requires 0 < a.sig < Pow2(t - 10) && 0 < b.sig < Pow2(t - 10)
    ensures Represents(t, Real(a) + Real(b), AddExact(t, a, b))
  {
    NormKeeps(t, a);
    NormKeeps(t, b);
    var x, y := Norm(t, a), Norm(t, b);
    if Dominates(x, y) { CombineCorrect(t, x, y); } else { CombineCorrect(t, y, x); }
  }
}
