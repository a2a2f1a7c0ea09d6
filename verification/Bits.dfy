/** Single bits of a register, one bit at a time. */
module Bits {
  import opened Powers
  import opened Prelude

  predicate Bit(w: nat, i: nat) {
    if i == 0 then w % 2 == 1 else Bit(w / 2, i - 1)
  }

  /** w | 1 << i. */
  function SetBit(w: nat, i: nat): nat {
    if i == 0 then w / 2 * 2 + 1 else 2 * SetBit(w / 2, i - 1) + w % 2
  }

  /** Bit i is the parity of the quotient by 2^i. */
  lemma {:induction false} BitIs(w: nat, i: nat, d: nat)
    requires d == Pow2(i)
    ensures Bit(w, i) <==> w / d % 2 == 1
    decreases i
  {
    if i != 0 {
      BitIs(w / 2, i - 1, d / 2);
      HalfThen(w, d / 2);
    }
  }

  lemma HalfThen(w: nat, d: nat)
    requires d > 0
    ensures w / 2 / d == w / (2 * d)
  {
    var h, b := DivMod(w, 2);
    var q, r := DivMod(h, d);
    assert 2 * (d * q) == 2 * d * q;
    QuotientIs(w, 2 * d, q, 2 * r + b);
  }

  /** Setting a clear bit adds its weight. */
  lemma {:induction false} SetBitAdds(w: nat, i: nat)
    ensures SetBit(w, i) == w + if Bit(w, i) then 0 else Pow2(i)
    decreases i
  {
    if i != 0 { SetBitAdds(w / 2, i - 1); }
  }

  lemma {:induction false} BitOfSetBit(w: nat, i: nat, j: nat)
    ensures Bit(SetBit(w, i), j) <==> i == j || Bit(w, j)
    decreases i
  {
    if i != 0 && j != 0 { BitOfSetBit(w / 2, i - 1, j - 1); }
  }

  lemma {:induction false} ShrOfSetBit(w: nat, i: nat, k: nat)
    requires i < k
    ensures Shr(SetBit(w, i), k) == Shr(w, k)
    decreases i
  {
    if i != 0 { ShrOfSetBit(w / 2, i - 1, k - 1); }
  }

  lemma {:induction false} SetBitSame(w: nat, i: nat)
    requires Bit(w, i)
    ensures SetBit(w, i) == w
    decreases i
  {
    if i != 0 { SetBitSame(w / 2, i - 1); }
  }

  lemma SetBitStep(h: nat, b: nat, i: nat)
    requires b < 2
    ensures SetBit(2 * h + b, i + 1) == 2 * SetBit(h, i) + b && SetBit(2 * h + b, 0) == 2 * h + 1
  {
    assert (2 * h + b) / 2 == h && (2 * h + b) % 2 == b;
  }

  lemma {:induction false} SetBitCommutes(w: nat, i: nat, j: nat)
    ensures SetBit(SetBit(w, i), j) == SetBit(SetBit(w, j), i)
    decreases i
  {
    hide SetBit;
    var h, b := w / 2, w % 2;
    if i != 0 && j != 0 {
      SetBitCommutes(h, i - 1, j - 1);
      SetBitStep(h, b, i - 1);
      SetBitStep(h, b, j - 1);
      SetBitStep(SetBit(h, i - 1), b, j - 1);
      SetBitStep(SetBit(h, j - 1), b, i - 1);
    } else if i != 0 {
      SetBitStep(h, b, i - 1);
      SetBitStep(h, 1, i - 1);
      SetBitStep(SetBit(h, i - 1), b, 0);
    } else if j != 0 {
      SetBitStep(h, b, j - 1);
      SetBitStep(h, 1, j - 1);
      SetBitStep(SetBit(h, j - 1), b, 0);
    }
  }

  lemma {:induction false} SetBitBound(w: nat, i: nat, k: nat)
    requires i < k && w < Pow2(k)
    ensures SetBit(w, i) < Pow2(k)
    decreases i
  {
    var h := Pow2(k - 1);
    assert Pow2(k) == 2 * h;
    assert w / 2 < h;
    if i != 0 { SetBitBound(w / 2, i - 1, k - 1); }
    hide Pow2;
  }

  lemma Pow2Doubled(k: nat)
    ensures Pow2(k + k) == Pow2(k) * Pow2(k)
  {
    hide Pow2;
    ShlPow2(k, k);
    ShlMul(Pow2(k), k);
  }

  lemma Pow2Of8()
    ensures Pow2(8) == 256
  {
  }

  lemma Pow2Of64()
    ensures Pow2(64) == 0x1_0000_0000_0000_0000
  {
    hide Pow2;
    Pow2Of8();
    Pow2Doubled(8);
    Pow2Doubled(16);
    Pow2Doubled(32);
  }
}
