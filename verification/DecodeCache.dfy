/** The decoded-instruction cache and the code epoch that keeps it honest (`src/dram.rs`,
    `src/cpu/mod.rs`). */
module DecodeCache {
  import opened Bytes
  import opened Prelude

  const DRAM_BASE: nat := 0x8000_0000
  const SLOTS: nat := 4096
  /** The pc of an empty slot: all ones, an odd address. */
  const EMPTY: nat := 0xffff_ffff_ffff_ffff

  // --- memory that knows which pages hold cached code ------------------------------------------

  /** `flags[p]` is set, and p is in `marked`, when some hart has cached code from page p. */
  datatype Dram = Dram(bytes: seq<Byte>, epoch: nat, flags: seq<bool>, marked: seq<nat>, anyMarked: bool)

  ghost predicate DramOk(d: Dram) {
    && |d.flags| == (|d.bytes| + 4095) / 4096
    && (forall p :: 0 <= p < |d.flags| ==> (d.flags[p] <==> p in d.marked))
    && (forall p :: p in d.marked ==> p < |d.flags|)
    && (d.anyMarked <==> d.marked != [])
  }

  function Cleared(flags: seq<bool>, marked: seq<nat>): (r: seq<bool>)
    ensures |r| == |flags|
  {
    seq(|flags|, p requires 0 <= p < |flags| => flags[p] && p !in marked)
  }

  /** Bump the epoch and forget every marked page. */
  function Invalidate(d: Dram): Dram {
    d.(epoch := d.epoch + 1, flags := Cleared(d.flags, d.marked), marked := [], anyMarked := false)
  }

  predicate TouchesCode(d: Dram, offset: nat, size: nat)
    requires size > 0
  {
    exists p :: offset / 4096 <= p <= (offset + size - 1) / 4096 && p < |d.flags| && d.flags[p]
  }

  function NoteWrite(d: Dram, offset: nat, size: nat): Dram {
    if !d.anyMarked || size == 0 then d else if TouchesCode(d, offset, size) then Invalidate(d) else d
  }

  predicate InRange(d: Dram, offset: nat, size: nat) { offset < |d.bytes| && size <= |d.bytes| - offset }

  /** A store by a hart, a page-table walker, or a device's DMA. */
  function Write(d: Dram, offset: nat, data: seq<Byte>): Dram {
    if !InRange(d, offset, |data|) then d
    else
      var n := NoteWrite(d, offset, |data|);
      n.(bytes := Patch(n.bytes, offset, data))
  }

  /** An image loader: invalidates unconditionally. */
  function LoadImage(d: Dram, offset: nat, data: seq<Byte>): Dram {
    if offset > |d.bytes| || |data| > |d.bytes| - offset then d
    else
      var n := Invalidate(d);
      n.(bytes := Patch(n.bytes, offset, data))
  }

  function Mark(d: Dram, offset: nat): Dram {
    var p := offset / 4096;
    if p >= |d.flags| || d.flags[p] then d
    else d.(flags := d.flags[p := true], marked := d.marked + [p], anyMarked := true)
  }

  // --- fetching ------------------------------------------------------------------------------------

  /** The halfwords of an instruction; decoding is a function of them. */
  datatype Inst = Inst16(low: nat) | Inst32(low: nat, high: nat)

  function Length(i: Inst): nat { if i.Inst16? then 2 else 4 }

  /** Where each (page, privilege) goes: a physical page, or a fault if absent. */
  type Mapping = map<(nat, nat), nat>

  datatype Fetch = Fetched(inst: Inst) | Misaligned | Fault | Elsewhere

  /** The physical address of pc as an offset into RAM, or -1 for a fault, or -2 outside. */
  function OffsetOf(d: Dram, m: Mapping, pc: nat, priv: nat, size: nat): int {
    if (pc / 4096, priv) !in m then -1 else OffsetIn(d, m[(pc / 4096, priv)], pc % 4096, size)
  }

  /** Byte `low` of a physical page as an offset into RAM. */
  function OffsetIn(d: Dram, page: nat, low: nat, size: nat): int {
    var pa := page * 4096 + low;
    if pa < DRAM_BASE || !InRange(d, pa - DRAM_BASE, size) then -2 else pa - DRAM_BASE
  }

  lemma OffsetFits(d: Dram, m: Mapping, pc: nat, priv: nat, size: nat)
    ensures OffsetOf(d, m, pc, priv, size) < |d.bytes|
  {
  }

  function Half(d: Dram, offset: nat): nat
    requires offset + 2 <= |d.bytes|
  {
    d.bytes[offset] as int + 256 * d.bytes[offset + 1] as int
  }

  /** The instruction at pc, two translated halfword reads at most. */
  function FetchInst(d: Dram, m: Mapping, pc: nat, priv: nat): Fetch {
    if pc % 2 == 1 then Misaligned
    else
      var o := OffsetOf(d, m, pc, priv, 2);
      if o == -1 then Fault else if o < 0 then Elsewhere
      else
        var low := Half(d, o);
        if low % 4 != 3 then Fetched(Inst16(low))
        else
          var o2 := OffsetOf(d, m, pc + 2, priv, 2);
          if o2 == -1 then Fault else if o2 < 0 then Elsewhere else Fetched(Inst32(low, Half(d, o2)))
  }

  // --- the per-hart cache ------------------------------------------------------------------------------

  datatype Entry = Entry(pc: nat, priv: nat, inst: Inst)
  type Cache = c: seq<Entry> | |c| == SLOTS witness seq(SLOTS, _ => Entry(EMPTY, 0, Inst16(0)))

  /** `remapped` records that the mapping has changed since the last flush. */
  datatype Hart = Hart(cache: Cache, epoch: nat, mapping: Mapping, remapped: bool)

  function Flushed(c: Cache): Cache { seq(SLOTS, i requires 0 <= i < SLOTS => c[i].(pc := EMPTY)) }

  function SlotOf(pc: nat): nat { pc / 2 % SLOTS }

  /** Drop everything if the code epoch has moved. */
  function Sync(d: Dram, h: Hart): Hart {
    if d.epoch != h.epoch then h.(cache := Flushed(h.cache), epoch := d.epoch) else h
  }

  predicate Hit(h: Hart, pc: nat, priv: nat) {
    h.cache[SlotOf(pc)].pc == pc && h.cache[SlotOf(pc)].priv == priv
  }

  datatype Filled = Filled(d: Dram, h: Hart)

  /** Remember the instruction just fetched, if it is safe to. */
  function CacheFill(d: Dram, h: Hart, pc: nat, priv: nat, inst: Inst): Filled {
    if Length(inst) == 4 && pc % 4096 == 4094 then Filled(d, h)
    else
      var o := OffsetOf(d, h.mapping, pc, priv, Length(inst));
      if o < 0 then Filled(d, h)
      else Filled(Mark(d, o), h.(cache := h.cache[SlotOf(pc) := Entry(pc, priv, inst)]))
  }

  // --- the invariant -------------------------------------------------------------------------------------

  /** A cached instruction is what a fetch would return, and its page is marked. */
  ghost predicate EntryGood(d: Dram, m: Mapping, e: Entry) {
    var o := OffsetOf(d, m, e.pc, e.priv, Length(e.inst));
    && FetchInst(d, m, e.pc, e.priv) == Fetched(e.inst)
    && !(Length(e.inst) == 4 && e.pc % 4096 == 4094)
    && o >= 0 && o / 4096 < |d.flags| && d.flags[o / 4096]
  }

  ghost predicate Coherent(d: Dram, h: Hart) {
    && h.epoch <= d.epoch
    && (forall i :: 0 <= i < SLOTS ==> h.cache[i].pc == EMPTY || h.cache[i].pc % 2 == 0)
    && (h.epoch == d.epoch && !h.remapped ==>
          forall i :: 0 <= i < SLOTS && h.cache[i].pc != EMPTY ==> EntryGood(d, h.mapping, h.cache[i]))
  }

  // --- marking and invalidating ----------------------------------------------------------------------------

  lemma InvalidateOk(d: Dram)
    requires DramOk(d)
    ensures DramOk(Invalidate(d)) && Invalidate(d).bytes == d.bytes && Invalidate(d).epoch == d.epoch + 1
    ensures forall p :: 0 <= p < |d.flags| ==> !Invalidate(d).flags[p]
  {
  }

  lemma MarkOk(d: Dram, offset: nat)
    requires DramOk(d) && offset < |d.bytes|
    ensures DramOk(Mark(d, offset)) && Mark(d, offset).bytes == d.bytes && Mark(d, offset).epoch == d.epoch
    ensures Mark(d, offset).flags == d.flags[offset / 4096 := true]
  {
    var p, e := offset / 4096, Mark(d, offset);
    assert p < |d.flags|;
    if !d.flags[p] {
      assert forall q :: q in e.marked <==> q in d.marked || q == p;
    }
  }

  lemma TouchedPage(d: Dram, offset: nat, size: nat, i: nat)
    requires offset <= i < offset + size && i / 4096 < |d.flags| && d.flags[i / 4096]
    ensures TouchesCode(d, offset, size)
  {
    PageBetween(offset, i, offset + size - 1);
  }

  /** A write bumps the epoch, or leaves every byte of every marked page alone. */
  lemma WriteOk(d: Dram, offset: nat, data: seq<Byte>)
    requires DramOk(d)
    ensures var w := Write(d, offset, data);
            && DramOk(w) && |w.bytes| == |d.bytes|
            && (w.epoch == d.epoch + 1
                || (w.epoch == d.epoch && w.flags == d.flags
                    && forall i :: 0 <= i < |d.bytes| && d.flags[i / 4096] ==> w.bytes[i] == d.bytes[i]))
  {
    InvalidateOk(d);
    var w := Write(d, offset, data);
    if InRange(d, offset, |data|) && w.epoch == d.epoch {
      forall i | 0 <= i < |d.bytes| && d.flags[i / 4096] ensures w.bytes[i] == d.bytes[i] {
        if offset <= i < offset + |data| {
          TouchedPage(d, offset, |data|, i);
        }
      }
    }
  }

  lemma PageBetween(a: nat, i: nat, b: nat)
    requires a <= i <= b
    ensures a / 4096 <= i / 4096 <= b / 4096
  {
  }

  // --- entries survive what does not touch them -----------------------------------------------------

  lemma SecondHalf(d: Dram, m: Mapping, pc: nat, priv: nat)
    requires pc % 2 == 0 && pc % 4096 != 4094 && OffsetOf(d, m, pc, priv, 4) >= 0
    ensures OffsetOf(d, m, pc + 2, priv, 2) == OffsetOf(d, m, pc, priv, 4) + 2
    ensures OffsetOf(d, m, pc, priv, 2) == OffsetOf(d, m, pc, priv, 4)
  {
    hide OffsetIn;
    SamePage(pc, 2);
    OffsetHalves(d, m[(pc / 4096, priv)], pc % 4096);
  }

  lemma OffsetHalves(d: Dram, page: nat, low: nat)
    requires OffsetIn(d, page, low, 4) >= 0
    ensures OffsetIn(d, page, low + 2, 2) == OffsetIn(d, page, low, 4) + 2
    ensures OffsetIn(d, page, low, 2) == OffsetIn(d, page, low, 4)
  {
  }

  lemma SamePage(pc: nat, k: nat)
    requires pc % 4096 + k < 4096
    ensures (pc + k) / 4096 == pc / 4096 && (pc + k) % 4096 == pc % 4096 + k
  {
  }

  /** The bytes of a cached instruction lie in one page. */
  lemma InstInPage(d: Dram, m: Mapping, e: Entry, k: nat)
    requires EntryGood(d, m, e) && k < Length(e.inst)
    ensures var o := OffsetOf(d, m, e.pc, e.priv, Length(e.inst)); (o + k) / 4096 == o / 4096
  {
    hide FetchInst, OffsetIn;
    FetchedEven(d, m, e);
    RoomInPage(e.pc, Length(e.inst), k);
    OffsetInPage(d, m[(e.pc / 4096, e.priv)], e.pc % 4096, Length(e.inst), k);
  }

  lemma RoomInPage(pc: nat, size: nat, k: nat)
    requires pc % 2 == 0 && (size == 2 || size == 4) && !(size == 4 && pc % 4096 == 4094) && k < size
    ensures pc % 4096 + k < 4096
  {
    var q, low := DivMod(pc, 4096);
    LowIsEven(pc, q, low);
  }

  lemma LowIsEven(pc: nat, q: nat, low: nat)
    requires pc == 4096 * q + low && pc % 2 == 0
    ensures low % 2 == 0
  {
  }

  lemma FetchedEven(d: Dram, m: Mapping, e: Entry)
    requires EntryGood(d, m, e)
    ensures e.pc % 2 == 0
  {
    hide OffsetOf;
  }

  lemma OffsetInPage(d: Dram, page: nat, low: nat, size: nat, k: nat)
    requires OffsetIn(d, page, low, size) >= 0 && low + k < 4096
    ensures var o := OffsetIn(d, page, low, size); (o + k) / 4096 == o / 4096
  {
    var o, p := OffsetIn(d, page, low, size), page - 0x8_0000;
    assert o == 4096 * p + low;
    assert o / 4096 == p && (o + k) / 4096 == p;
  }

  lemma EntryStays(d: Dram, d': Dram, m: Mapping, e: Entry)
    requires EntryGood(d, m, e) && |d'.bytes| == |d.bytes| && |d'.flags| == |d.flags|
    requires forall p :: 0 <= p < |d.flags| && d.flags[p] ==> d'.flags[p]
    requires |d.flags| == (|d.bytes| + 4095) / 4096
    requires forall i :: 0 <= i < |d.bytes| && d.flags[i / 4096] ==> d'.bytes[i] == d.bytes[i]
    ensures EntryGood(d', m, e)
  {
    var n := Length(e.inst);
    var o := OffsetOf(d, m, e.pc, e.priv, n);
    assert OffsetOf(d', m, e.pc, e.priv, n) == o;
    InstInPage(d, m, e, 0);
    InstInPage(d, m, e, 1);
    if n == 4 {
      InstInPage(d, m, e, 2);
      InstInPage(d, m, e, 3);
      SecondHalf(d, m, e.pc, e.priv);
      SecondHalf(d', m, e.pc, e.priv);
    }
  }

  lemma CoherentStays(d: Dram, d': Dram, h: Hart)
    requires DramOk(d) && Coherent(d, h) && |d'.bytes| == |d.bytes| && |d'.flags| == |d.flags| && d'.epoch == d.epoch
    requires forall p :: 0 <= p < |d.flags| && d.flags[p] ==> d'.flags[p]
    requires forall i :: 0 <= i < |d.bytes| && d.flags[i / 4096] ==> d'.bytes[i] == d.bytes[i]
    ensures Coherent(d', h)
  {
    hide EntryGood;
    if h.epoch == d.epoch && !h.remapped {
      forall i | 0 <= i < SLOTS && h.cache[i].pc != EMPTY ensures EntryGood(d', h.mapping, h.cache[i]) {
        EntryStays(d, d', h.mapping, h.cache[i]);
      }
    }
  }

  lemma CoherentAfterBump(d: Dram, d': Dram, h: Hart)
    requires Coherent(d, h) && d'.epoch == d.epoch + 1
    ensures Coherent(d', h)
  {
    hide EntryGood;
  }

  lemma WriteKeeps(d: Dram, offset: nat, data: seq<Byte>, h: Hart)
    requires DramOk(d) && Coherent(d, h)
    ensures Coherent(Write(d, offset, data), h)
  {
    hide Coherent, Write;
    WriteOk(d, offset, data);
    var w := Write(d, offset, data);
    if w.epoch == d.epoch + 1 { CoherentAfterBump(d, w, h); } else { CoherentStays(d, w, h); }
  }

  lemma ImageKeeps(d: Dram, offset: nat, data: seq<Byte>, h: Hart)
    requires DramOk(d) && Coherent(d, h)
    ensures DramOk(LoadImage(d, offset, data)) && Coherent(LoadImage(d, offset, data), h)
  {
    hide Coherent;
    InvalidateOk(d);
    var w := LoadImage(d, offset, data);
    if w != d && w.epoch == d.epoch + 1 { CoherentAfterBump(d, w, h); }
  }

  lemma MarkKeeps(d: Dram, offset: nat, h: Hart)
    requires DramOk(d) && offset < |d.bytes| && Coherent(d, h)
    ensures Coherent(Mark(d, offset), h)
  {
    hide Coherent;
    MarkOk(d, offset);
    CoherentStays(d, Mark(d, offset), h);
  }

  // --- one step -------------------------------------------------------------------------------------------

  datatype Patched = Patched(offset: nat, data: seq<Byte>)

  /** Writes in order: a walker's accessed-bit updates on the way to a fetch. */
  function WriteAll(d: Dram, ws: seq<Patched>): Dram
    decreases |ws|
  {
    if ws == [] then d else WriteAll(Write(d, ws[0].offset, ws[0].data), ws[1..])
  }

  datatype Stepped = Stepped(d: Dram, h: Hart, got: Fetch)

  /** Sync, look in the cache, and on a miss fetch (after the walker's own writes) and fill. */
  function Step(d: Dram, h0: Hart, pc: nat, priv: nat, ws: seq<Patched>): Stepped {
    var h := Sync(d, h0);
    if Hit(h, pc, priv) then Stepped(d, h, Fetched(h.cache[SlotOf(pc)].inst))
    else
      var d1 := WriteAll(d, ws);
      var got := FetchInst(d1, h.mapping, pc, priv);
      if got.Fetched? then
        var f := CacheFill(d1, h, pc, priv, got.inst);
        Stepped(f.d, f.h, got)
      else Stepped(d1, h, got)
  }

  lemma SyncKeeps(d: Dram, h: Hart)
    requires Coherent(d, h)
    ensures Coherent(d, Sync(d, h)) && Sync(d, h).epoch == d.epoch && Sync(d, h).remapped == h.remapped
  {
    hide EntryGood;
  }

  lemma {:induction false} WriteAllKeeps(d: Dram, ws: seq<Patched>, h: Hart)
    requires DramOk(d) && Coherent(d, h)
    ensures DramOk(WriteAll(d, ws)) && Coherent(WriteAll(d, ws), h)
    decreases |ws|
  {
    hide Coherent, Write;
    if ws != [] {
      WriteOk(d, ws[0].offset, ws[0].data);
      WriteKeeps(d, ws[0].offset, ws[0].data, h);
      WriteAllKeeps(Write(d, ws[0].offset, ws[0].data), ws[1..], h);
    }
  }

  /** The instruction just fetched is a good entry once its page is marked. */
  lemma FillIsGood(d: Dram, h: Hart, pc: nat, priv: nat, inst: Inst)
    requires DramOk(d) && FetchInst(d, h.mapping, pc, priv) == Fetched(inst) && CacheFill(d, h, pc, priv, inst).h != h
    ensures EntryGood(CacheFill(d, h, pc, priv, inst).d, h.mapping, Entry(pc, priv, inst))
  {
    var o := OffsetOf(d, h.mapping, pc, priv, Length(inst));
    MarkOk(d, o);
  }

  lemma FillKeeps(d: Dram, h: Hart, pc: nat, priv: nat, inst: Inst)
    requires DramOk(d) && Coherent(d, h) && FetchInst(d, h.mapping, pc, priv) == Fetched(inst)
    ensures var f := CacheFill(d, h, pc, priv, inst); DramOk(f.d) && Coherent(f.d, f.h)
  {
    hide EntryGood, FetchInst;
    var f := CacheFill(d, h, pc, priv, inst);
    EvenPc(d, h.mapping, pc, priv);
    if f.h != h {
      var o := OffsetOf(d, h.mapping, pc, priv, Length(inst));
      MarkOk(d, o);
      MarkKeeps(d, o, h);
      FillIsGood(d, h, pc, priv, inst);
    } else if f.d != d {
      MarkOk(d, OffsetOf(d, h.mapping, pc, priv, Length(inst)));
      MarkKeeps(d, OffsetOf(d, h.mapping, pc, priv, Length(inst)), h);
    }
  }

  lemma EvenPc(d: Dram, m: Mapping, pc: nat, priv: nat)
    ensures FetchInst(d, m, pc, priv).Fetched? ==> pc % 2 == 0
  {
  }

  lemma FillKeepsOther(d: Dram, h: Hart, pc: nat, priv: nat, inst: Inst, g: Hart)
    requires DramOk(d) && Coherent(d, g)
    ensures Coherent(CacheFill(d, h, pc, priv, inst).d, g)
  {
    hide Coherent;
    var o := OffsetOf(d, h.mapping, pc, priv, Length(inst));
    if o >= 0 { MarkKeeps(d, o, g); }
  }

  // --- runs ---------------------------------------------------------------------------------------------------

  datatype Machine = Machine(d: Dram, harts: seq<Hart>)

  /** A step of hart h; a store or DMA; an image load; a change of a hart's mapping; a flush of
      a hart's caches (SFENCE.VMA, satp write, FENCE.I or remote fence). */
  datatype Event = StepHart(h: nat, pc: nat, priv: nat, ws: seq<Patched>) | Store(offset: nat, data: seq<Byte>)
                 | Image(offset: nat, data: seq<Byte>) | Remap(h: nat, m: Mapping) | Fence(h: nat)

  function Next(m: Machine, ev: Event): Machine {
    match ev
    case StepHart(h, pc, priv, ws) =>
      if h >= |m.harts| then m
      else var s := Step(m.d, m.harts[h], pc, priv, ws); Machine(s.d, m.harts[h := s.h])
    case Store(offset, data) => m.(d := Write(m.d, offset, data))
    case Image(offset, data) => m.(d := LoadImage(m.d, offset, data))
    case Remap(h, map_) =>
      if h >= |m.harts| then m else m.(harts := m.harts[h := m.harts[h].(mapping := map_, remapped := true)])
    case Fence(h) =>
      if h >= |m.harts| then m
      else m.(harts := m.harts[h := m.harts[h].(cache := Flushed(m.harts[h].cache), remapped := false)])
  }

  ghost predicate Inv(m: Machine) {
    DramOk(m.d) && forall h :: 0 <= h < |m.harts| ==> Coherent(m.d, m.harts[h])
  }

  lemma StepKeeps(m: Machine, h: nat, pc: nat, priv: nat, ws: seq<Patched>)
    requires Inv(m) && h < |m.harts|
    ensures Inv(Next(m, StepHart(h, pc, priv, ws)))
  {
    hide Coherent, FetchInst, Sync, CacheFill, WriteAll, DramOk;
    var h1 := Sync(m.d, m.harts[h]);
    SyncKeeps(m.d, m.harts[h]);
    if !Hit(h1, pc, priv) {
      var d1 := WriteAll(m.d, ws);
      WriteAllKeeps(m.d, ws, h1);
      var got := FetchInst(d1, h1.mapping, pc, priv);
      if got.Fetched? { FillKeeps(d1, h1, pc, priv, got.inst); }
      forall g | 0 <= g < |m.harts| && g != h
        ensures Coherent(Next(m, StepHart(h, pc, priv, ws)).d, m.harts[g])
      {
        WriteAllKeeps(m.d, ws, m.harts[g]);
        if got.Fetched? { FillKeepsOther(d1, h1, pc, priv, got.inst, m.harts[g]); }
      }
    }
  }

  /** Every event keeps the invariant. */
  lemma NextKeeps(m: Machine, ev: Event)
    requires Inv(m)
    ensures Inv(Next(m, ev))
  {
    match ev
    case StepHart(h, pc, priv, ws) => if h < |m.harts| { StepKeeps(m, h, pc, priv, ws); }
    case Store(offset, data) =>
      hide Coherent, Write;
      WriteOk(m.d, offset, data);
      forall h | 0 <= h < |m.harts| ensures Coherent(Write(m.d, offset, data), m.harts[h]) {
        WriteKeeps(m.d, offset, data, m.harts[h]);
      }
    case Image(offset, data) =>
      hide Coherent;
      InvalidateOk(m.d);
      forall h | 0 <= h < |m.harts| ensures Coherent(LoadImage(m.d, offset, data), m.harts[h]) {
        ImageKeeps(m.d, offset, data, m.harts[h]);
      }
    case Remap(h, map_) => hide EntryGood;
    case Fence(h) => hide EntryGood;
  }

  function RunAll(m: Machine, evs: seq<Event>): Machine
    decreases |evs|
  {
    if evs == [] then m else RunAll(Next(m, evs[0]), evs[1..])
  }

  lemma {:induction false} RunKeeps(m: Machine, evs: seq<Event>)
    requires Inv(m)
    ensures Inv(RunAll(m, evs))
    decreases |evs|
  {
    hide Inv, Next;
    if evs != [] {
      NextKeeps(m, evs[0]);
      RunKeeps(Next(m, evs[0]), evs[1..]);
    }
  }

  /** In every reachable state a hit by a hart whose mapping is unchanged since its last flush
      returns what a fetch would, exactly when the pc is even: the one odd pc that can hit is
      the empty marker itself. */
  lemma HitIsFetch(m: Machine, evs: seq<Event>, h: nat, pc: nat, priv: nat, ws: seq<Patched>)
    requires Inv(m) && h < |RunAll(m, evs).harts|
    ensures var n := RunAll(m, evs); var hart := Sync(n.d, n.harts[h]);
            !hart.remapped && Hit(hart, pc, priv) ==>
              && (pc % 2 == 1 ==> pc == EMPTY)
              && (Step(n.d, n.harts[h], pc, priv, ws).got == FetchInst(n.d, hart.mapping, pc, priv) <==> pc % 2 == 0)
  {
    hide RunAll, EntryGood;
    RunKeeps(m, evs);
    var n := RunAll(m, evs);
    var hart := Sync(n.d, n.harts[h]);
    SyncKeeps(n.d, n.harts[h]);
    if !hart.remapped && Hit(hart, pc, priv) && pc % 2 == 0 {
      GoodEntryFetches(n.d, hart.mapping, hart.cache[SlotOf(pc)]);
    }
  }

  lemma GoodEntryFetches(d: Dram, m: Mapping, e: Entry)
    requires EntryGood(d, m, e)
    ensures FetchInst(d, m, e.pc, e.priv) == Fetched(e.inst)
  {
  }

  /** The state out of reset satisfies the invariant. */
  lemma ResetOk(bytes: seq<Byte>, harts: seq<Hart>)
    requires forall h :: 0 <= h < |harts| ==>
               harts[h].epoch == 0 && forall i :: 0 <= i < SLOTS ==> harts[h].cache[i].pc == EMPTY
    ensures Inv(Machine(Dram(bytes, 1, seq((|bytes| + 4095) / 4096, _ => false), [], false), harts))
  {
    hide EntryGood;
  }

  /** A machine out of reset with two pages of zeros, its one hart mapping the second page. */
  function Fresh(): Machine {
    Machine(Dram(seq(0x2000, _ => 0), 1, seq(2, _ => false), [], false),
            [Hart(seq(SLOTS, _ => Entry(EMPTY, 0, Inst16(0))), 0, map[(0x8_0001, 1) := 0x8_0001], false)])
  }

  /** The marker does hit. Once a supervisor instruction has been cached in the last slot, a flush
      leaves its privilege there; a hart then started at the address of all ones, which no one masks,
      executes that stale instruction where a fetch would report a misaligned address. */
  lemma EmptyMarkerHits()
    ensures var m := RunAll(Fresh(), [StepHart(0, 0x8000_1ffe, 1, []), Fence(0)]);
            && Inv(Fresh()) && |m.harts| == 1 && !m.harts[0].remapped
            && Step(m.d, m.harts[0], EMPTY, 1, []).got == Fetched(Inst16(0))
            && FetchInst(m.d, m.harts[0].mapping, EMPTY, 1) == Misaligned
  {
    var m0 := Fresh();
    var evs := [StepHart(0, 0x8000_1ffe, 1, []), Fence(0)];
    ResetOk(m0.d.bytes, m0.harts);
    var m1 := Next(m0, evs[0]);
    var m2 := Next(m1, evs[1]);
    assert evs[1..] == [Fence(0)] && evs[1..][1..] == [];
    assert RunAll(m0, evs) == m2;
    CachesLast(m0.d, m0.harts[0]);
  }

  lemma CachesLast(d: Dram, h: Hart)
    requires d == Fresh().d && h == Fresh().harts[0]
    ensures var s := Step(d, h, 0x8000_1ffe, 1, []);
            s.h.cache[4095] == Entry(0x8000_1ffe, 1, Inst16(0)) && s.h.epoch == s.d.epoch == 1
  {
    assert OffsetOf(d, h.mapping, 0x8000_1ffe, 1, 2) == 0x1ffe;
    assert Half(d, 0x1ffe) == 0;
  }
}
