/** Naming harts by mask and base, for the SBI's IPI and remote-fence calls (`src/sbi.rs`). */
module SbiTargets {
  import opened Bits

  const U64: nat := 0x1_0000_0000_0000_0000

  datatype Selection = Invalid | Selected(ids: seq<nat>)

  /** Bit `bit` of the mask selects this hart: that many above the base, at the end of 64 bits from zero
      again. */
  function Named(base: nat, bit: nat): (id: nat)
    requires base < U64 && bit < 64
    ensures if base + bit <= 0xffff_ffff_ffff_ffff then id == base + bit else id == base + bit - 0x1_0000_0000_0000_0000
  {
    (base + bit) % U64
  }

  predicate Selects(mask: nat, base: nat, bits: nat, id: nat)
    requires base < U64 && bits <= 64
  {
    exists bit :: 0 <= bit < bits && Bit(mask, bit) && Named(base, bit) == id
  }

  predicate Distinct(s: seq<nat>) { forall i, j :: 0 <= i < j < |s| ==> s[i] != s[j] }

  lemma NamedDiffer(base: nat, a: nat, b: nat)
    requires base < U64 && a < b < 64
    ensures Named(base, a) != Named(base, b)
  {
  }

  /** The harts a mask selects, each once, or Invalid if it names one that does not exist. A base of
      all ones is every hart. */
  method Targets(count: nat, mask: nat, base: nat) returns (r: Selection)
    requires count < U64 && mask < U64 && base < U64
    ensures base == 0xffff_ffff_ffff_ffff ==> r == Selected(seq(count, i => i))
    ensures base != 0xffff_ffff_ffff_ffff ==> (r.Selected? <==>
      forall bit :: 0 <= bit < 64 && Bit(mask, bit) ==> Named(base, bit) < count)
    ensures base != 0xffff_ffff_ffff_ffff && r.Selected? ==>
      (forall id: nat :: id in r.ids <==> Selects(mask, base, 64, id)) && Distinct(r.ids)
  {
    hide Bit, Named;
    if base == U64 - 1 { return Selected(seq(count, i => i)); }
    var out: seq<nat>, ok := [], true;
    for bit := 0 to 64
      invariant ok <==> forall k :: 0 <= k < bit && Bit(mask, k) ==> Named(base, k) < count
      invariant forall id: nat :: id in out <==> id < count && Selects(mask, base, bit, id)
      invariant Distinct(out)
    {
      if Bit(mask, bit) {
        var id := Named(base, bit);
        if id < count {
          forall k | 0 <= k < bit ensures Named(base, k) != id { NamedDiffer(base, k, bit); }
          assert !Selects(mask, base, bit, id);
          assert forall i :: 0 <= i < |out| ==> out[i] in out;
          out := out + [id];
        } else {
          ok := false;
        }
      }
    }
    if ok { return Selected(out); }
    return Invalid;
  }
}
