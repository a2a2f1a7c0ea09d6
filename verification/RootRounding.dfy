/** What it means to round a square root correctly, stated by comparing squares of representable
    numbers with the operand, so that the root itself is never mentioned. */
module RootRounding {
  import opened Powers
  import opened RoundingSpec
  import opened FloatFormat
  import opened Rounding

  function Sq(a: real): real { a * a }

  lemma SqLess(a: real, b: real)
    requires 0.0 <= a < b
    ensures Sq(a) < Sq(b)
  {
    Positive(b - a, b + a);
    assert (b - a) * (b + a) == b * b - a * a;
  }

  lemma Positive(x: real, y: real)
    requires x > 0.0 && y > 0.0
    ensures x * y > 0.0
  {
  }

  lemma SqOrder(a: real, b: real)
    requires 0.0 <= a && 0.0 <= b
    ensures Sq(a) < Sq(b) <==> a < b
    ensures Sq(a) == Sq(b) <==> a == b
  {
    hide Sq;
    if a < b { SqLess(a, b); }
    if b < a { SqLess(b, a); }
  }

  // --- the specification ------------------------------------------------------------------------

  /** The root of x lies in [lo, hi), consecutive representable numbers, and m is the one the mode
      picks: nearness is decided by the square of their midpoint. */
  ghost predicate RootBetween(p: nat, r: Range, rm: Rm, x: real, lo: real, hi: real, m: real)
    requires p >= 2
  {
    && Bracket(p, r, lo, hi) && 0.0 <= lo && Sq(lo) <= x < Sq(hi)
    && var mid := Sq((lo + hi) / 2.0);
       if Sq(lo) == x then m == lo
       else match rm
         case Rtz => m == lo
         case Rdn => m == lo
         case Rup => m == hi
         case Rne => (if x < mid then m == lo else if mid < x then m == hi else (m == lo || m == hi) && IsEven(p, r, m))
         case Rmm => m == if x < mid then lo else hi
  }

  /** The root of x rounds to the magnitude m. */
  ghost predicate RootRoundsTo(p: nat, r: Range, rm: Rm, x: real, m: real)
    requires p >= 2
  {
    exists lo: real, hi: real :: RootBetween(p, r, rm, x, lo, hi, m)
  }

  /** Rounded with an unlimited exponent, the root stays below the smallest normal number. */
  ghost predicate RootTiny(f: Fmt, rm: Rm, x: real) {
    exists m: real :: RootRoundsTo(Prec(f), Unbounded, rm, x, m) && m < Dyadic(1, Emin(f))
  }

  ghost predicate RootDelivers(f: Fmt, rm: Rm, x: real, m: real, out: Out) {
    if m > MaxFinite(f) then
      out == Out(OverflowBits(f, rm, false), NO_FLAGS.(of := true, nx := true))
    else
      var u := Unpack(out.bits, f);
      && IsPattern(f, out.bits) && !u.sign && IsNumber(u.class_) && Mag(u.class_) == m
      && out.flags == NO_FLAGS.(nx := Sq(m) != x, uf := Sq(m) != x && RootTiny(f, rm, x))
  }

  /** `out` is the correctly rounded positive root of x, with exact flags. */
  ghost predicate CorrectRoot(f: Fmt, rm: Rm, x: real, out: Out) {
    exists m: real :: RootRoundsTo(Prec(f), Bounded(Qmin(f)), rm, x, m) && RootDelivers(f, rm, x, m, out)
  }

  // --- it determines its answer ------------------------------------------------------------------

  lemma SameBracket(p: nat, r: Range, x: real, lo: real, hi: real, lo': real, hi': real)
    requires p >= 2 && Bracket(p, r, lo, hi) && Bracket(p, r, lo', hi') && 0.0 <= lo && 0.0 <= lo'
    requires Sq(lo) <= x < Sq(hi) && Sq(lo') <= x < Sq(hi')
    ensures lo == lo' && hi == hi'
  {
    hide Sq, IsFloat;
    SqOrder(lo, hi');
    SqOrder(lo', hi);
  }

  lemma RootUnique(p: nat, r: Range, rm: Rm, x: real, m: real, n: real)
    requires p >= 2 && RootRoundsTo(p, r, rm, x, m) && RootRoundsTo(p, r, rm, x, n)
    ensures m == n
  {
    hide Sq, IsFloat, IsEven, Bracket;
    var lo, hi :| RootBetween(p, r, rm, x, lo, hi, m);
    var lo', hi' :| RootBetween(p, r, rm, x, lo', hi', n);
    SameBracket(p, r, x, lo, hi, lo', hi');
    if m != n { NotBothEven(p, r, lo, hi); }
  }

  lemma NotBothEven(p: nat, r: Range, lo: real, hi: real)
    requires p >= 2 && Bracket(p, r, lo, hi)
    ensures !(IsEven(p, r, lo) && IsEven(p, r, hi))
  {
    hide IsFloat, IsEven;
    if IsEven(p, r, lo) {
      NoTwoEvenNeighbours(p, r, (lo + hi) / 2.0, lo, hi);
    }
  }

  /** Wherever a real root exists, this is its correct rounding. */
  lemma RootIsReal(p: nat, r: Range, rm: Rm, v: real, m: real)
    requires p >= 2 && v >= 0.0 && RootRoundsTo(p, r, rm, Sq(v), m)
    ensures RoundsTo(p, r, rm, false, v, m)
  {
    hide Sq, IsFloat, IsEven, Bracket, RoundsTo;
    var lo, hi :| RootBetween(p, r, rm, Sq(v), lo, hi, m);
    BracketOrder(p, r, lo, hi);
    var mid := (lo + hi) / 2.0;
    SqOrder(lo, v);
    SqOrder(v, hi);
    SqOrder(v, mid);
    var half, u := v >= mid, hi - lo;
    var rest := v != lo && v != mid;
    assert At(v, lo, u, half, rest);
    var odd := OneIsEven(p, r, lo, hi);
    if rm == Rne && m == hi && v == mid { NotBothEven(p, r, lo, hi); }
    if rm == Rne && m == lo && v == mid { NotBothEven(p, r, lo, hi); }
    IncrementIsCorrect(p, r, rm, false, v, lo, u, odd, half, rest);
  }

  lemma BracketOrder(p: nat, r: Range, lo: real, hi: real)
    requires p >= 2 && Bracket(p, r, lo, hi)
    ensures lo < hi
  {
  }

  lemma OneIsEven(p: nat, r: Range, lo: real, hi: real) returns (odd: bool)
    requires p >= 2 && Bracket(p, r, lo, hi)
    ensures if odd then IsEven(p, r, hi) else IsEven(p, r, lo)
  {
    hide IsEven, Dyadic, Canonical;
    var k: int, q: int :| FloatAt(p, r, lo, k, q);
    BracketOf(p, r, k, q);
    assert Dyadic(k + 1, q) == hi;
    odd := k % 2 == 1;
  }

  // --- from the integer root to the rounded one ------------------------------------------------

  /** r is the floor of the root of x in units of 2^h, and `sticky` says whether it is short. */
  ghost predicate Cell(x: real, r: nat, sticky: bool, h: int) {
    && Sq(Dyadic(r, h)) <= x < Sq(Dyadic(r + 1, h))
    && (sticky <==> Sq(Dyadic(r, h)) != x)
  }

  /** A number that stands where the root stands among multiples of 2^h. */
  ghost function Stand(r: nat, sticky: bool, h: int): real {
    if sticky then Dyadic(r, h) + Dyadic(1, h - 1) else Dyadic(r, h)
  }

  lemma StandDenotes(r: nat, sticky: bool, h: int)
    ensures Denotes(Stand(r, sticky, h), r, sticky, h)
  {
    hide Dyadic;
    DyadicSign(1, h - 1);
    DyadicUp(1, h - 1);
    DyadicAdd(r, 1, h);
  }

  /** As `At`, for squares. */
  ghost predicate RootAt(x: real, lo: real, u: real, half: bool, rest: bool) {
    var b := if half then lo + u / 2.0 else lo;
    if rest then Sq(b) < x < Sq(b + u / 2.0) else x == Sq(b)
  }

  lemma RootOnGrid(x: real, r: nat, sticky: bool, h: int, H: nat, base: nat, half: bool, d: nat)
    requires Cell(x, r, sticky, h) && r == base + (if half then H else 0) + d && d < H
    ensures RootAt(x, Dyadic(base, h), Dyadic(2 * H, h), half, d != 0 || sticky)
  {
    hide Dyadic, Sq;
    var b := base + (if half then H else 0);
    DyadicAdd(H, H, h);
    DyadicAdd(base, if half then H else 0, h);
    DyadicAdd(b, H, h);
    DyadicSign(0, h);
    DyadicSign(b, h);
    DyadicSign(r, h);
    DyadicSign(r + 1, h);
    DyadicSign(b + H, h);
    DyadicLt(b, r, h);
    DyadicLt(b + H, r + 1, h);
    SqOrder(Dyadic(b, h), Dyadic(r, h));
    SqOrder(Dyadic(b + H, h), Dyadic(r + 1, h));
  }

  lemma RootKept(x: real, r: nat, sticky: bool, h: int, s: nat)
    requires s > 0 && Cell(x, r, sticky, h)
    ensures var kept, dropped := Shr(r, s), Low(r, s);
            RootAt(x, Dyadic(kept, h + s), Dyadic(1, h + s),
                   Shr(dropped, s - 1) % 2 == 1, Low(dropped, s - 1) != 0 || sticky)
  {
    hide Dyadic, Shl, Shr, Low, Cell, RootAt;
    var H := Pow2(s - 1);
    var kept, dropped := Shr(r, s), Low(r, s);
    HighLow(r, s);
    HighLow(dropped, s - 1);
    ShlAdd(1, 1, s - 1);
    ShlOne(s - 1);
    ShrOrder(dropped, 2, s - 1);
    RootOnGrid(x, r, sticky, h, H, Shl(kept, s), Shr(dropped, s - 1) % 2 == 1, Low(dropped, s - 1));
    DyadicShl(kept, s, h);
    DyadicPow2(s, h);
  }

  /** The grid cell of the stand-in is the grid cell of the root. */
  lemma RootGrid(p: nat, R: Range, x: real, r: nat, sticky: bool, h: int)
    returns (k: nat, q: int, half: bool, rest: bool)
    requires p >= 2 && r >= Pow2(p) && Cell(x, r, sticky, h)
    ensures Canonical(p, R, k, q)
    ensures At(Stand(r, sticky, h), Dyadic(k, q), Dyadic(1, q), half, rest)
    ensures RootAt(x, Dyadic(k, q), Dyadic(1, q), half, rest)
  {
    hide Dyadic, Shr, Low, Cell, RootAt, At, Stand;
    RootWidth(r, p);
    var s0 := Msb(r) - p + 1;
    var s := if R.Bounded? && R.qmin > h + s0 then R.qmin - h else s0;
    k, q := Shr(r, s), h + s;
    half, rest := Shr(Low(r, s), s - 1) % 2 == 1, Low(Low(r, s), s - 1) != 0 || sticky;
    RootKept(x, r, sticky, h, s);
    StandAt(r, sticky, h, s);
    KeptCanonical(p, r, s0, s);
  }

  lemma RootWidth(r: nat, p: nat)
    requires r >= Pow2(p)
    ensures r > 0 && Msb(r) >= p
  {
    hide Pow2;
    if Msb(r) < p { Pow2Mono(Msb(r) + 1, p); }
  }

  lemma StandAt(r: nat, sticky: bool, h: int, s: nat)
    requires s > 0
    ensures At(Stand(r, sticky, h), Dyadic(Shr(r, s), h + s), Dyadic(1, h + s),
               Shr(Low(r, s), s - 1) % 2 == 1, Low(Low(r, s), s - 1) != 0 || sticky)
  {
    hide Dyadic, Shr, Stand, At;
    StandDenotes(r, sticky, h);
    NoGap(r);
    SomeKept(Stand(r, sticky, h), r, sticky, h, 0, s);
  }

  lemma NoGap(r: nat)
    ensures Low(r, 0) == 0 && Pow2(0) == 1
  {
  }

  lemma KeptCanonical(p: nat, r: nat, s0: nat, s: nat)
    requires p >= 2 && r > 0 && Msb(r) >= p && s0 == Msb(r) - p + 1 && s >= s0
    ensures Shr(r, s) < Pow2(p) && (s == s0 ==> Shr(r, s) >= Pow2(p - 1))
  {
    hide Pow2, Shr, Shl;
    ShlPow2(p, s);
    ShlPow2(p - 1, s);
    Pow2Mono(Msb(r) + 1, p + s);
    ShrOrder(r, Pow2(p), s);
    ShrOrder(r, Pow2(p - 1), s);
  }

  /** The increment rule picks the neighbour the root rounds to. */
  lemma GridRootRounds(p: nat, R: Range, rm: Rm, x: real, k: nat, q: int, half: bool, rest: bool)
    requires p >= 2 && Canonical(p, R, k, q) && RootAt(x, Dyadic(k, q), Dyadic(1, q), half, rest)
    ensures RootRoundsTo(p, R, rm, x, Dyadic(RoundUp(rm, false, k, half, rest), q))
  {
    hide Dyadic, IsFloat, IsEven, Sq, Canonical, Bracket;
    var lo, hi, u := Dyadic(k, q), Dyadic(k + 1, q), Dyadic(1, q);
    BracketOf(p, R, k, q);
    DyadicAdd(k, 1, q);
    DyadicSign(k, q);
    DyadicSign(1, q);
    SqOrder(lo, lo + u / 2.0);
    SqOrder(lo + u / 2.0, hi);
    assert (lo + hi) / 2.0 == lo + u / 2.0;
    assert RootBetween(p, R, rm, x, lo, hi, Dyadic(RoundUp(rm, false, k, half, rest), q));
  }

  /** Where the stand-in rounds to, the root does. */
  lemma RootTransfers(p: nat, R: Range, rm: Rm, x: real, r: nat, sticky: bool, h: int, m: real)
    requires p >= 2 && r >= Pow2(p) && Cell(x, r, sticky, h)
    ensures RoundsTo(p, R, rm, false, Stand(r, sticky, h), m) <==> RootRoundsTo(p, R, rm, x, m)
    ensures RoundsTo(p, R, rm, false, Stand(r, sticky, h), m) ==> (m != Stand(r, sticky, h) <==> Sq(m) != x)
  {
    hide Dyadic, IsFloat, IsEven, Sq, Canonical, Bracket, Cell, RootAt, At, Stand, RoundsTo, RootRoundsTo;
    hide RoundUp, Pow2;
    var k, q, half, rest := RootGrid(p, R, x, r, sticky, h);
    GridRounds(p, R, rm, false, Stand(r, sticky, h), k, q, half, rest);
    GridRootRounds(p, R, rm, x, k, q, half, rest);
    GridRootExact(p, R, rm, x, k, q, half, rest);
    var m0 := Dyadic(RoundUp(rm, false, k, half, rest), q);
    if RoundsTo(p, R, rm, false, Stand(r, sticky, h), m) {
      RoundsToUnique(p, R, rm, false, Stand(r, sticky, h), m, m0);
    }
    if RootRoundsTo(p, R, rm, x, m) { RootUnique(p, R, rm, x, m, m0); }
  }

  lemma GridRootExact(p: nat, R: Range, rm: Rm, x: real, k: nat, q: int, half: bool, rest: bool)
    requires p >= 2 && Canonical(p, R, k, q) && RootAt(x, Dyadic(k, q), Dyadic(1, q), half, rest)
    ensures Sq(Dyadic(RoundUp(rm, false, k, half, rest), q)) != x <==> half || rest
  {
    hide Dyadic, Sq, Canonical;
    var lo, hi, u := Dyadic(k, q), Dyadic(k + 1, q), Dyadic(1, q);
    DyadicAdd(k, 1, q);
    DyadicSign(k, q);
    DyadicSign(1, q);
    SqOrder(lo, lo + u / 2.0);
    SqOrder(lo + u / 2.0, hi);
  }

  /** The correctly rounded stand-in is the correctly rounded root. */
  lemma StandIsRoot(f: Fmt, rm: Rm, x: real, r: nat, sticky: bool, h: int, out: Out)
    requires r >= Pow2(Prec(f)) && Cell(x, r, sticky, h) && CorrectResult(f, rm, false, Stand(r, sticky, h), out)
    ensures CorrectRoot(f, rm, x, out)
  {
    hide Dyadic, Sq, Cell, Stand, RoundsTo, RootRoundsTo, Unpack, Mag, MaxFinite, Pow2, OverflowBits, Tiny, RootTiny;
    var v, p := Stand(r, sticky, h), Prec(f);
    var m: real :| RoundsTo(p, Bounded(Qmin(f)), rm, false, v, m) && Delivers(f, rm, false, v, m, out);
    RootTransfers(p, Bounded(Qmin(f)), rm, x, r, sticky, h, m);
    TinyTransfers(f, rm, x, r, sticky, h);
    assert RootDelivers(f, rm, x, m, out);
  }

  lemma TinyTransfers(f: Fmt, rm: Rm, x: real, r: nat, sticky: bool, h: int)
    requires r >= Pow2(Prec(f)) && Cell(x, r, sticky, h)
    ensures Tiny(f, rm, false, Stand(r, sticky, h)) <==> RootTiny(f, rm, x)
  {
    hide Dyadic, Sq, Cell, Stand, RoundsTo, RootRoundsTo, Pow2;
    var v := Stand(r, sticky, h);
    if Tiny(f, rm, false, v) {
      var m: real :| RoundsTo(Prec(f), Unbounded, rm, false, v, m) && m < Dyadic(1, Emin(f));
      RootTransfers(Prec(f), Unbounded, rm, x, r, sticky, h, m);
    }
    if RootTiny(f, rm, x) {
      var m: real :| RootRoundsTo(Prec(f), Unbounded, rm, x, m) && m < Dyadic(1, Emin(f));
      RootTransfers(Prec(f), Unbounded, rm, x, r, sticky, h, m);
    }
  }
}
