/** What it means to round a real number correctly (IEEE 754-2019, section 4.3), stated over
    the set of representable magnitudes and without reference to any algorithm. */
module RoundingSpec {
  import opened Powers

  /** The five rounding-direction attributes. */
  datatype Rm = Rne | Rtz | Rdn | Rup | Rmm

  /** How far down the exponent of the last place may go: `Bounded` gives subnormals,
      `Unbounded` is the exponent-unlimited format used to detect tininess. */
  datatype Range = Bounded(qmin: int) | Unbounded

  predicate Allowed(r: Range, q: int) {
    r.Unbounded? || q >= r.qmin
  }

  /** (k, q) is the normalised form of a p-digit number, or a subnormal one at the bottom. */
  ghost predicate Canonical(p: nat, r: Range, k: int, q: int)
    requires p >= 2
  {
    0 <= k < Pow2(p) && Allowed(r, q) && (k >= Pow2(p - 1) || r == Bounded(q))
  }

  ghost predicate FloatAt(p: nat, r: Range, m: real, k: int, q: int)
    requires p >= 2
  {
    Canonical(p, r, k, q) && m == Dyadic(k, q)
  }

  /** m is a representable magnitude, the exponent being unlimited above. */
  ghost predicate IsFloat(p: nat, r: Range, m: real)
    requires p >= 2
  {
    exists k: int, q: int :: FloatAt(p, r, m, k, q)
  }

  ghost predicate IsEven(p: nat, r: Range, m: real)
    requires p >= 2
  {
    exists k: int, q: int :: FloatAt(p, r, m, k, q) && k % 2 == 0
  }

  function Dist(a: real, b: real): real {
    if a >= b then a - b else b - a
  }

  ghost predicate LargestBelow(p: nat, r: Range, v: real, m: real)
    requires p >= 2
  {
    IsFloat(p, r, m) && m <= v && forall n: real :: IsFloat(p, r, n) && n <= v ==> n <= m
  }

  ghost predicate SmallestAbove(p: nat, r: Range, v: real, m: real)
    requires p >= 2
  {
    IsFloat(p, r, m) && m >= v && forall n: real :: IsFloat(p, r, n) && n >= v ==> n >= m
  }

  ghost predicate Nearest(p: nat, r: Range, v: real, m: real)
    requires p >= 2
  {
    IsFloat(p, r, m) && forall n: real :: IsFloat(p, r, n) ==> Dist(v, m) <= Dist(v, n)
  }

  ghost predicate Tie(p: nat, r: Range, v: real, m: real, n: real)
    requires p >= 2
  {
    IsFloat(p, r, n) && n != m && Dist(v, n) == Dist(v, m)
  }

  /** The magnitude v of a number whose sign is `sign` rounds to the magnitude m. */
  ghost predicate RoundsTo(p: nat, r: Range, rm: Rm, sign: bool, v: real, m: real)
    requires p >= 2
  {
    match rm
    case Rtz => LargestBelow(p, r, v, m)
    case Rdn => if sign then SmallestAbove(p, r, v, m) else LargestBelow(p, r, v, m)
    case Rup => if sign then LargestBelow(p, r, v, m) else SmallestAbove(p, r, v, m)
    case Rne => Nearest(p, r, v, m) && ((exists n: real :: Tie(p, r, v, m, n)) ==> IsEven(p, r, m))
    case Rmm => Nearest(p, r, v, m) && forall n: real :: Tie(p, r, v, m, n) ==> n < m
  }

  // --- neighbouring representable numbers --------------------------------------

  /** lo and hi are representable and nothing between them is. */
  ghost predicate Bracket(p: nat, r: Range, lo: real, hi: real)
    requires p >= 2
  {
    && lo < hi && IsFloat(p, r, lo) && IsFloat(p, r, hi)
    && forall n: real :: IsFloat(p, r, n) ==> n <= lo || n >= hi
  }

  /** A number at a smaller exponent lies below every normalised number at a larger one. */
  lemma SmallerExponentIsBelow(p: nat, k: int, q: int, k': int, q': int)
    requires p >= 2 && q' < q && 0 <= k' < Pow2(p) && k >= Pow2(p - 1)
    ensures Dyadic(k', q') < Dyadic(k, q)
  {
    DyadicMono(k', q', q - 1);
    DyadicLt(k', 2 * Pow2(p - 1), q - 1);
    DyadicDouble(Pow2(p - 1), q - 1);
    DyadicLt(Pow2(p - 1), k, q);
  }

  lemma CanonicalUnique(p: nat, r: Range, k: int, q: int, k': int, q': int)
    requires p >= 2 && Canonical(p, r, k, q) && Canonical(p, r, k', q')
    requires Dyadic(k, q) == Dyadic(k', q')
    ensures k == k' && q == q'
  {
    if q' < q {
      SmallerExponentIsBelow(p, k, q, k', q');
    } else if q < q' {
      SmallerExponentIsBelow(p, k', q', k, q);
    } else {
      DyadicLt(k, k', q);
    }
  }

  lemma NothingBetween(p: nat, r: Range, k: int, q: int, n: real)
    requires p >= 2 && Canonical(p, r, k, q) && IsFloat(p, r, n)
    ensures n <= Dyadic(k, q) || n >= Dyadic(k + 1, q)
  {
    var k': int, q': int :| FloatAt(p, r, n, k', q');
    if q' < q {
      SmallerExponentIsBelow(p, k, q, k', q');
    } else {
      var j := Shl(k', q' - q);
      DyadicShl(k', q' - q, q);
      DyadicLt(k, j, q);
      DyadicLt(j, k + 1, q);
    }
  }

  /** The two neighbours of a value in [k, k+1) * 2^q, and which of them is even. */
  lemma BracketOf(p: nat, r: Range, k: int, q: int)
    requires p >= 2 && Canonical(p, r, k, q)
    ensures Bracket(p, r, Dyadic(k, q), Dyadic(k + 1, q))
    ensures if k % 2 == 1 then IsEven(p, r, Dyadic(k + 1, q)) else IsEven(p, r, Dyadic(k, q))
  {
    var lo, hi := Dyadic(k, q), Dyadic(k + 1, q);
    DyadicLt(k, k + 1, q);
    assert FloatAt(p, r, lo, k, q);
    NextIsFloat(p, r, k, q);
    forall n: real | IsFloat(p, r, n) ensures n <= lo || n >= hi {
      NothingBetween(p, r, k, q, n);
    }
  }

  lemma NextIsFloat(p: nat, r: Range, k: int, q: int)
    requires p >= 2 && Canonical(p, r, k, q)
    ensures IsFloat(p, r, Dyadic(k + 1, q))
    ensures k % 2 == 1 ==> IsEven(p, r, Dyadic(k + 1, q))
  {
    hide Dyadic, Pow2;
    if k + 1 < Pow2(p) {
      assert FloatAt(p, r, Dyadic(k + 1, q), k + 1, q);
    } else {
      NextBinade(p, r, q);
      DyadicDouble(Pow2(p - 1), q);
      assert FloatAt(p, r, Dyadic(k + 1, q), Pow2(p - 1), q + 1);
    }
  }

  /** Past the last number of a binade comes the first, an even one, of the next. */
  lemma NextBinade(p: nat, r: Range, q: int)
    requires p >= 2 && Allowed(r, q)
    ensures Canonical(p, r, Pow2(p - 1), q + 1) && Pow2(p - 1) % 2 == 0 && Pow2(p) == 2 * Pow2(p - 1)
  {
    assert Pow2(p - 1) == 2 * Pow2(p - 2) && Pow2(p) == 2 * Pow2(p - 1);
  }

  // --- the rounding decision -----------------------------------------------------

  /** Whether the kept digits are incremented, given the first dropped digit, whether
      anything follows it, and the parity of what is kept. */
  function Increments(rm: Rm, sign: bool, odd: bool, half: bool, rest: bool): bool {
    match rm
    case Rne => half && (rest || odd)
    case Rtz => false
    case Rdn => sign && (half || rest)
    case Rup => !sign && (half || rest)
    case Rmm => half
  }

  /** v lies in [lo, lo + u), and `half` and `rest` say where. */
  ghost predicate At(v: real, lo: real, u: real, half: bool, rest: bool) {
    var b := if half then lo + u / 2.0 else lo;
    if rest then b < v < b + u / 2.0 else v == b
  }

  /** The increment rule picks the correct neighbour in every mode. */
  lemma IncrementIsCorrect(p: nat, r: Range, rm: Rm, sign: bool, v: real, lo: real, u: real,
                           odd: bool, half: bool, rest: bool)
    requires p >= 2 && u > 0.0 && Bracket(p, r, lo, lo + u) && At(v, lo, u, half, rest)
    requires if odd then IsEven(p, r, lo + u) else IsEven(p, r, lo)
    ensures RoundsTo(p, r, rm, sign, v, if Increments(rm, sign, odd, half, rest) then lo + u else lo)
  {
  }

  // --- the specification determines its answer -------------------------------------

  lemma RoundsToUnique(p: nat, r: Range, rm: Rm, sign: bool, v: real, m: real, n: real)
    requires p >= 2 && RoundsTo(p, r, rm, sign, v, m) && RoundsTo(p, r, rm, sign, v, n)
    ensures m == n
  {
    if rm == Rne && m != n {
      assert Tie(p, r, v, m, n) && Tie(p, r, v, n, m);
      if m < n { NoTwoEvenNeighbours(p, r, v, m, n); } else { NoTwoEvenNeighbours(p, r, v, n, m); }
    } else if rm == Rmm && m != n {
      assert Tie(p, r, v, m, n) && Tie(p, r, v, n, m);
    }
  }

  /** Of two neighbours equally far from v, if the lower is even the upper is odd. */
  lemma NoTwoEvenNeighbours(p: nat, r: Range, v: real, m: real, n: real)
    requires p >= 2 && Nearest(p, r, v, m) && m < n && Dist(v, m) == Dist(v, n)
    requires IsEven(p, r, m) && IsFloat(p, r, n)
    ensures !IsEven(p, r, n)
  {
    var k: int, q: int :| FloatAt(p, r, m, k, q) && k % 2 == 0;
    BracketOf(p, r, k, q);
    var next := Dyadic(k + 1, q);
    assert Dist(v, m) <= Dist(v, next);
    assert next == n;
    SuccessorIsOdd(p, r, k, q);
  }

  lemma SuccessorCanonical(p: nat, r: Range, k: int, q: int)
    requires p >= 2 && Canonical(p, r, k, q) && k % 2 == 0
    ensures Canonical(p, r, k + 1, q)
  {
    var h := Pow2(p - 1);
    assert Pow2(p) == 2 * h;
    hide Pow2;
  }

  lemma SuccessorIsOdd(p: nat, r: Range, k: int, q: int)
    requires p >= 2 && Canonical(p, r, k, q) && k % 2 == 0
    ensures !IsEven(p, r, Dyadic(k + 1, q))
  {
    hide Dyadic;
    SuccessorCanonical(p, r, k, q);
    hide Pow2, Canonical;
    var m := Dyadic(k + 1, q);
    forall k': int, q': int | FloatAt(p, r, m, k', q') ensures k' % 2 != 0 {
      CanonicalUnique(p, r, k + 1, q, k', q');
    }
  }
}
