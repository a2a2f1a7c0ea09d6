/** Small things several modules share. */
module Prelude {

  datatype Option<T> = None | Some(value: T)

  function Min(a: nat, b: nat): nat { if a <= b then a else b }

  function Max(a: nat, b: nat): nat { if a <= b then b else a }

  lemma AtLeastOnce(d: nat, n: nat)
    requires n >= 1
    ensures d * n >= d
  {
  }

  /** Quotient and remainder are determined by what they satisfy. */
  lemma DivMod(k: nat, d: nat) returns (q: nat, r: nat)
    requires d > 0
    ensures q == k / d && r == k % d && k == d * q + r && r < d
  {
    q, r := k / d, k % d;
  }

  lemma QuotientIs(k: nat, d: nat, q: nat, r: nat)
    requires d > 0 && k == d * q + r && r < d
    ensures k / d == q && k % d == r
  {
    var q' := k / d;
    if q < q' { AtLeastOnce(d, q' - q); } else if q' < q { AtLeastOnce(d, q - q'); }
  }
}
