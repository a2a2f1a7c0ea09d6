/** What a fetch returns and what a write does, byte by byte, told without the functions that do it. */
module FetchMeaning {
  import opened Bytes
  import opened DecodeCache

  /** The page of pc is mapped, to the given physical address of pc. */
  predicate Goes(m: Mapping, pc: nat, priv: nat, pa: nat) {
    (pc / 4096, priv) in m && pa == m[(pc / 4096, priv)] * 4096 + pc % 4096
  }

  /** RAM from 0x80000000 on holds the two-byte number v at a physical address. */
  predicate HasHalf(d: Dram, pa: nat, v: nat) {
    && pa >= 0x8000_0000 && pa - 0x8000_0000 + 2 <= |d.bytes|
    && v == d.bytes[pa - 0x8000_0000] as int + 256 * d.bytes[pa - 0x8000_0000 + 1] as int
  }

  predicate OutsideRam(d: Dram, pa: nat) { pa < 0x8000_0000 || pa - 0x8000_0000 + 2 > |d.bytes| }

  /** An odd pc is misaligned. An unmapped page is a fault. A first halfword that does not end in 11 is
      the whole instruction. */
  lemma FetchShort(d: Dram, m: Mapping, pc: nat, priv: nat, pa: nat, v: nat)
    ensures pc % 2 == 1 ==> FetchInst(d, m, pc, priv) == Misaligned
    ensures pc % 2 == 0 && (pc / 4096, priv) !in m ==> FetchInst(d, m, pc, priv) == Fault
    ensures pc % 2 == 0 && Goes(m, pc, priv, pa) && OutsideRam(d, pa) ==> FetchInst(d, m, pc, priv) == Elsewhere
    ensures pc % 2 == 0 && Goes(m, pc, priv, pa) && HasHalf(d, pa, v) && v % 4 != 3 ==>
      FetchInst(d, m, pc, priv) == Fetched(Inst16(v))
  {
  }

  /** Any other is followed by a second halfword, wherever the page of pc + 2 goes. */
  lemma FetchLong(d: Dram, m: Mapping, pc: nat, priv: nat, pa: nat, v: nat, pa2: nat, w: nat)
    requires pc % 2 == 0 && Goes(m, pc, priv, pa) && HasHalf(d, pa, v) && v % 4 == 3
    ensures ((pc + 2) / 4096, priv) !in m ==> FetchInst(d, m, pc, priv) == Fault
    ensures Goes(m, pc + 2, priv, pa2) && OutsideRam(d, pa2) ==> FetchInst(d, m, pc, priv) == Elsewhere
    ensures Goes(m, pc + 2, priv, pa2) && HasHalf(d, pa2, w) ==> FetchInst(d, m, pc, priv) == Fetched(Inst32(v, w))
  {
  }

  /** A step that finds nothing cached fetches, after the writes of its page walks. */
  lemma MissFetches(d: Dram, h: Hart, pc: nat, priv: nat, ws: seq<Patched>)
    requires !Hit(Sync(d, h), pc, priv)
    ensures Step(d, h, pc, priv, ws).got == FetchInst(WriteAll(d, ws), h.mapping, pc, priv)
  {
  }

  /** Something is written exactly where it was addressed, if all of that is RAM, and otherwise nothing
      is. */
  lemma WriteMeans(d: Dram, offset: nat, data: seq<Byte>)
    requires data != []
    ensures var n := Write(d, offset, data);
            && |n.bytes| == |d.bytes|
            && if offset + |data| <= |d.bytes|
               then forall i :: 0 <= i < |d.bytes| ==>
                      n.bytes[i] == if offset <= i < offset + |data| then data[i - offset] else d.bytes[i]
               else n == d
  {
  }

  lemma ImageMeans(d: Dram, offset: nat, data: seq<Byte>)
    ensures var n := LoadImage(d, offset, data);
            && |n.bytes| == |d.bytes|
            && if offset + |data| <= |d.bytes|
               then n.epoch == d.epoch + 1 && forall i :: 0 <= i < |d.bytes| ==>
                      n.bytes[i] == if offset <= i < offset + |data| then data[i - offset] else d.bytes[i]
               else n == d
  {
  }

  /** A fence empties its hart's cache, which then agrees with the mapping again, and nothing else; a
      change of mapping is remembered until then. */
  lemma FenceMeans(m: Machine, h: nat, map_: Mapping, g: nat)
    requires h < |m.harts| && g < |m.harts|
    ensures var f, r := Next(m, Fence(h)), Next(m, Remap(h, map_));
            && f.d == m.d && r.d == m.d && |f.harts| == |r.harts| == |m.harts|
            && !f.harts[h].remapped && f.harts[h].mapping == m.harts[h].mapping
            && (forall i :: 0 <= i < 4096 ==> f.harts[h].cache[i].pc == 0xffff_ffff_ffff_ffff)
            && r.harts[h].remapped && r.harts[h].mapping == map_ && r.harts[h].cache == m.harts[h].cache
            && (g != h ==> f.harts[g] == m.harts[g] && r.harts[g] == m.harts[g])
  {
  }
}
