/** Sv39 address translation: the page-table walk, and the same thing through the
    direct-mapped translation cache (`src/mmu.rs`). */
module Sv39 {
  import opened Powers
  import opened Bits

  type Word = w: nat | w < 0x1_0000_0000_0000_0000

  /** RAM as 64-bit words; word i holds the bytes at DRAM_BASE + 8 * i. */
  type Mem = seq<Word>

  const DRAM_BASE: nat := 0x8000_0000
  const U64: nat := 0x1_0000_0000_0000_0000

  datatype AccessType = Fetch | Read | Write
  datatype Priv = User | Supervisor | Machine
  datatype SatpFields = Bare | Paged(asid: nat, ppn: nat)
  /** satp, with its 16-bit address-space identifier and 44-bit root page number. */
  type Satp = s: SatpFields | s.Paged? ==> s.asid < 0x10000 && s.ppn < 0x1000_0000_0000 witness Bare

  /** One access: where, why, at which effective privilege, and the two mstatus bits that
      bear on it. */
  datatype Access = Access(va: Word, ty: AccessType, priv: Priv, sum: bool, mxr: bool)

  datatype Result = Ok(pa: nat) | PageFault

  // --- page-table entries -----------------------------------------------------------------

  predicate V(w: nat) { Bit(w, 0) }
  predicate R(w: nat) { Bit(w, 1) }
  predicate W(w: nat) { Bit(w, 2) }
  predicate X(w: nat) { Bit(w, 3) }
  predicate U(w: nat) { Bit(w, 4) }
  predicate A(w: nat) { Bit(w, 6) }
  predicate D(w: nat) { Bit(w, 7) }
  function Ppn(w: nat): nat { Shr(w, 10) }

  predicate IsLeaf(w: nat) { R(w) || X(w) }

  function SetA(w: Word): Word { WordFits(w, 6); SetBit(w, 6) }
  function SetD(w: Word): Word { WordFits(w, 7); SetBit(w, 7) }

  lemma WordFits(w: Word, i: nat)
    requires i < 64
    ensures SetBit(w, i) < 0x1_0000_0000_0000_0000
  {
    Pow2Of64();
    SetBitBound(w, i, 64);
  }

  predicate Permitted(w: nat, ty: AccessType, priv: Priv, sum: bool, mxr: bool) {
    if priv == User && !U(w) then false
    else if priv != User && U(w) && (ty == Fetch || !sum) then false
    else match ty
      case Fetch => X(w)
      case Read => R(w) || (mxr && X(w))
      case Write => W(w)
  }

  // --- the walk -----------------------------------------------------------------------------

  /** The 8-byte word at a physical address, if RAM has it. */
  function Load(mem: Mem, addr: nat): (r: int)
    ensures -1 <= r < U64
  {
    if DRAM_BASE <= addr && (addr - DRAM_BASE) / 8 < |mem| then mem[(addr - DRAM_BASE) / 8] else -1
  }

  function Store(mem: Mem, addr: nat, w: Word): (r: Mem)
    ensures |r| == |mem|
  {
    if DRAM_BASE <= addr && (addr - DRAM_BASE) / 8 < |mem| then mem[(addr - DRAM_BASE) / 8 := w] else mem
  }

  /** How many pages one entry of a table at `level` covers. */
  function Pages(level: nat): nat
    requires level <= 2
  {
    if level == 0 then 1 else if level == 1 then 512 else 262144
  }

  /** The 9 bits of the page number that index a table at `level`. */
  function EntryAddr(table: nat, va: Word, level: nat): nat
    requires level <= 2
  {
    table + Vpn(va) / Pages(level) % 512 * 8
  }

  function NextTable(w: Word): nat { Ppn(w) * 4096 % U64 }

  datatype Walk = NoLeaf | Leaf(w: Word, level: nat, addr: nat)

  /** Follow the tables down from `table`, looking for a leaf. */
  function WalkFrom(mem: Mem, table: nat, va: Word, level: nat): (r: Walk)
    requires level <= 2
    ensures r.Leaf? ==> r.level <= level && Load(mem, r.addr) == r.w && V(r.w) && IsLeaf(r.w)
    decreases level
  {
    var addr := EntryAddr(table, va, level);
    var w := Load(mem, addr);
    if w < 0 then NoLeaf
    else if !V(w) || (W(w) && !R(w)) then NoLeaf
    else if IsLeaf(w) then Leaf(w, level, addr)
    else if level == 0 then NoLeaf
    else WalkFrom(mem, NextTable(w), va, level - 1)
  }

  predicate CanonicalVa(va: Word) { va / 0x40_0000_0000 == 0 || va / 0x40_0000_0000 == 0x3ff_ffff }

  function Vpn(va: Word): nat { va / 4096 }

  /** The physical page number, the virtual address supplying what a superpage does not; -1
      for a misaligned superpage. */
  function PageOf(w: Word, level: nat, va: Word): (r: int)
    requires level <= 2
    ensures r >= -1
  {
    var pages := Pages(level);
    if level > 0 && Ppn(w) % pages != 0 then -1 else Ppn(w) + Vpn(va) % pages
  }

  function Physical(ppn: nat, va: Word): nat { ppn * 4096 % U64 + va % 4096 }

  predicate Translates(satp: Satp, acc: Access) { acc.priv != Machine && satp.Paged? }

  /** What the entry becomes when the access is made. */
  function Touched(w: Word, ty: AccessType): Word {
    if ty == Write then SetD(SetA(w)) else SetA(w)
  }

  datatype Outcome = Outcome(result: Result, mem: Mem)

  /** Translation without any cache: the reference the cached form must agree with. */
  function WalkTranslate(mem: Mem, satp: Satp, acc: Access): Outcome {
    if !Translates(satp, acc) then Outcome(Ok(acc.va), mem)
    else if !CanonicalVa(acc.va) then Outcome(PageFault, mem)
    else match WalkFrom(mem, satp.ppn * 4096, acc.va, 2)
      case NoLeaf => Outcome(PageFault, mem)
      case Leaf(w, level, addr) =>
        var ppn := PageOf(w, level, acc.va);
        if !Permitted(w, acc.ty, acc.priv, acc.sum, acc.mxr) || ppn < 0 then Outcome(PageFault, mem)
        else Outcome(Ok(Physical(ppn, acc.va)), Store(mem, addr, Touched(w, acc.ty)))
  }

  // --- the cache ------------------------------------------------------------------------------

  const SLOTS: nat := 1024
  const INVALID_TAG: Word := 0xffff_ffff_ffff_ffff

  datatype Entry = Entry(tag: Word, ppn: nat, perms: Word, addr: nat)
  type Tlb = t: seq<Entry> | |t| == SLOTS witness seq(SLOTS, _ => Entry(INVALID_TAG, 0, 0, 0))

  /** asid << 44 | vpn. The page number of a canonical address has bits 26 to 51 all equal, so
      bits 44 to 51 of the key are the low half of the asid below the hole and all ones above
      it (see KeyIsOr). */
  function Key(asid: nat, vpn: nat): (k: nat) {
    if vpn < 0x1000_0000_0000 then asid * 0x1000_0000_0000 + vpn
    else asid / 256 * 0x10_0000_0000_0000 + vpn
  }

  lemma KeyIsOr(asid: bv64, vpn: bv64)
    requires asid < 0x10000
    requires vpn < 0x400_0000 || (0xf_ffff_fc00_0000 <= vpn <= 0xf_ffff_ffff_ffff)
    ensures (asid << 44) | vpn ==
            if vpn < 0x1000_0000_0000 then (asid << 44) + vpn else ((asid >> 8) << 52) + vpn
  {
  }

  function Slot(va: Word): nat { Vpn(va) % SLOTS }

  datatype Cached = Cached(result: Result, mem: Mem, tlb: Tlb)

  /** Translation through the cache, as the source does it. */
  function TlbTranslate(mem: Mem, tlb: Tlb, satp: Satp, acc: Access): (r: Cached) {
    if !Translates(satp, acc) then Cached(Ok(acc.va), mem, tlb)
    else if !CanonicalVa(acc.va) then Cached(PageFault, mem, tlb)
    else
      var e := tlb[Slot(acc.va)];
      KeyBound(satp.asid, acc.va);
      if e.tag == Key(satp.asid, Vpn(acc.va)) then
        if !Permitted(e.perms, acc.ty, acc.priv, acc.sum, acc.mxr) then Cached(PageFault, mem, tlb)
        else if acc.ty == Write && !D(e.perms) then
          var dirty := SetD(e.perms);
          Cached(Ok(Physical(e.ppn, acc.va)), Store(mem, e.addr, dirty), tlb[Slot(acc.va) := e.(perms := dirty)])
        else Cached(Ok(Physical(e.ppn, acc.va)), mem, tlb)
      else match WalkFrom(mem, satp.ppn * 4096, acc.va, 2)
        case NoLeaf => Cached(PageFault, mem, tlb)
        case Leaf(w, level, addr) =>
          var ppn := PageOf(w, level, acc.va);
          if !Permitted(w, acc.ty, acc.priv, acc.sum, acc.mxr) || ppn < 0 then Cached(PageFault, mem, tlb)
          else
            var updated := Touched(w, acc.ty);
            Cached(Ok(Physical(ppn, acc.va)), if updated != w then Store(mem, addr, updated) else mem,
                   tlb[Slot(acc.va) := Entry(Key(satp.asid, Vpn(acc.va)), ppn, updated, addr)])
  }

  lemma KeyBound(asid: nat, va: Word)
    requires asid < 0x10000
    ensures Key(asid, Vpn(va)) < INVALID_TAG
  {
  }

  // --- accessed and dirty bits -----------------------------------------------------------------

  /** w' is w with some of A and D newly set. */
  predicate AdGrows(w: Word, w': Word) {
    w' == w || w' == SetA(w) || w' == SetD(w) || w' == SetD(SetA(w))
  }

  /** w' agrees with w in everything but A and D. */
  predicate SameMapping(w: Word, w': Word) {
    && (V(w') <==> V(w)) && (R(w') <==> R(w)) && (W(w') <==> W(w)) && (X(w') <==> X(w)) && (U(w') <==> U(w))
    && Ppn(w') == Ppn(w)
  }

  lemma SetBitKeeps(w: Word, w': Word, i: nat)
    requires (i == 6 || i == 7) && w' == SetBit(w, i)
    ensures SameMapping(w, w') && (A(w') <==> i == 6 || A(w)) && (D(w') <==> i == 7 || D(w))
  {
    hide Bit, SetBit, Shr;
    BitOfSetBit(w, i, 0);
    BitOfSetBit(w, i, 1);
    BitOfSetBit(w, i, 2);
    BitOfSetBit(w, i, 3);
    BitOfSetBit(w, i, 4);
    BitOfSetBit(w, i, 6);
    BitOfSetBit(w, i, 7);
    ShrOfSetBit(w, i, 10);
  }

  lemma AdKeeps(w: Word, w': Word)
    requires AdGrows(w, w')
    ensures SameMapping(w, w') && (A(w) ==> A(w')) && (D(w) ==> D(w'))
  {
    hide Bit, SetBit, Shr;
    SetBitKeeps(w, SetA(w), 6);
    SetBitKeeps(w, SetD(w), 7);
    SetBitKeeps(SetA(w), SetD(SetA(w)), 7);
  }

  /** From mem to mem', only accessed and dirty bits of leaf entries were set. */
  ghost predicate AdStep(mem: Mem, mem': Mem) {
    && |mem'| == |mem|
    && forall i :: 0 <= i < |mem| ==> AdGrows(mem[i], mem'[i]) && (mem'[i] != mem[i] ==> IsLeaf(mem[i]))
  }

  lemma LoadUnderAd(mem: Mem, mem': Mem, addr: nat)
    requires AdStep(mem, mem')
    ensures Load(mem, addr) < 0 <==> Load(mem', addr) < 0
    ensures var w, w' := Load(mem, addr), Load(mem', addr);
            w >= 0 ==> AdGrows(w, w') && SameMapping(w, w') && (!IsLeaf(w) ==> w' == w)
  {
    hide Bit, Shr, SetBit, SameMapping, AdGrows, IsLeaf;
    if Load(mem, addr) >= 0 { AdKeeps(Load(mem, addr), Load(mem', addr)); }
  }

  /** Setting accessed and dirty bits leaves every walk where it was. */
  lemma {:induction false} WalkUnderAd(mem: Mem, mem': Mem, table: nat, va: Word, level: nat)
    requires AdStep(mem, mem') && level <= 2
    ensures var r, r' := WalkFrom(mem, table, va, level), WalkFrom(mem', table, va, level);
            && (r.Leaf? <==> r'.Leaf?)
            && (r.Leaf? ==> r'.level == r.level && r'.addr == r.addr && AdGrows(r.w, r'.w) && SameMapping(r.w, r'.w))
    decreases level
  {
    hide Bit, Shr, SetBit, AdGrows, Load;
    var addr := EntryAddr(table, va, level);
    LoadUnderAd(mem, mem', addr);
    var w := Load(mem, addr);
    if w >= 0 && V(w) && !(W(w) && !R(w)) && !IsLeaf(w) && level > 0 {
      WalkUnderAd(mem, mem', NextTable(w), va, level - 1);
    }
  }

  /** A walk only looks at the page number. */
  lemma {:induction false} WalkByPage(mem: Mem, table: nat, va: Word, va': Word, level: nat)
    requires Vpn(va) == Vpn(va') && level <= 2
    ensures WalkFrom(mem, table, va, level) == WalkFrom(mem, table, va', level)
    decreases level
  {
    hide Bit, Shr, Load;
    var w := Load(mem, EntryAddr(table, va, level));
    if w >= 0 && level > 0 { WalkByPage(mem, NextTable(w), va, va', level - 1); }
  }

  // --- what a cached entry means ---------------------------------------------------------------

  /** The entry is the translation a walk would find, up to a dirty bit set since. */
  ghost predicate EntryFor(mem: Mem, satp: Satp, va: Word, e: Entry)
    requires satp.Paged?
  {
    var r := WalkFrom(mem, satp.ppn * 4096, va, 2);
    && r.Leaf? && e.addr == r.addr && PageOf(r.w, r.level, va) == e.ppn
    && A(r.w) && (r.w == e.perms || r.w == SetD(e.perms))
  }

  ghost predicate Hits(tlb: Tlb, satp: Satp, va: Word)
    requires satp.Paged?
  {
    CanonicalVa(va) && tlb[Slot(va)].tag == Key(satp.asid, Vpn(va))
  }

  /** Every entry that can hit is right. */
  ghost predicate Coherent(mem: Mem, tlb: Tlb, satp: Satp) {
    satp.Paged? ==> forall va: Word :: Hits(tlb, satp, va) ==> EntryFor(mem, satp, va, tlb[Slot(va)])
  }

  lemma EntryUnderAd(mem: Mem, mem': Mem, satp: Satp, va: Word, e: Entry)
    requires satp.Paged? && AdStep(mem, mem') && EntryFor(mem, satp, va, e)
    ensures EntryFor(mem', satp, va, e)
  {
    hide Bit, Shr, SetBit, WalkFrom;
    WalkUnderAd(mem, mem', satp.ppn * 4096, va, 2);
    var r, r' := WalkFrom(mem, satp.ppn * 4096, va, 2), WalkFrom(mem', satp.ppn * 4096, va, 2);
    AdKeeps(r.w, r'.w);
    SetBitSame(r.w, 6);
    SetBitKeeps(e.perms, SetD(e.perms), 7);
    SetBitSame(SetD(e.perms), 7);
  }

  /** Any walker's accessed and dirty updates keep every hart's cache coherent. */
  lemma CoherentUnderAd(mem: Mem, mem': Mem, tlb: Tlb, satp: Satp)
    requires AdStep(mem, mem') && Coherent(mem, tlb, satp)
    ensures Coherent(mem', tlb, satp)
  {
    hide EntryFor, Hits;
    if satp.Paged? {
      forall va: Word | Hits(tlb, satp, va) ensures EntryFor(mem', satp, va, tlb[Slot(va)]) {
        EntryUnderAd(mem, mem', satp, va, tlb[Slot(va)]);
      }
    }
  }

  /** A walk that ends in an access only sets accessed and dirty bits. */
  lemma WalkTranslateIsAdStep(mem: Mem, satp: Satp, acc: Access)
    ensures AdStep(mem, WalkTranslate(mem, satp, acc).mem)
  {
    hide Bit, Shr, SetBit;
  }

  // --- keys ----------------------------------------------------------------------------------------

  /** Two canonical page numbers share a key exactly when they are equal and their asids are,
      or, above the hole, when the asids agree in their upper half: there the lower half of the
      asid is lost. */
  lemma KeyCollision(asid: nat, va: Word, asid': nat, va': Word)
    requires asid < 0x10000 && asid' < 0x10000 && CanonicalVa(va) && CanonicalVa(va')
    ensures Key(asid, Vpn(va)) == Key(asid', Vpn(va')) <==>
            && Vpn(va) == Vpn(va')
            && (asid == asid' || (va / 0x40_0000_0000 != 0 && asid / 256 == asid' / 256))
  {
    VpnHalf(va);
    VpnHalf(va');
    hide Vpn, CanonicalVa;
  }

  lemma VpnHalf(va: Word)
    requires CanonicalVa(va)
    ensures if va / 0x40_0000_0000 == 0 then Vpn(va) < 0x400_0000
            else 0xf_ffff_fc00_0000 <= Vpn(va) < 0x10_0000_0000_0000
  {
  }

  /** Two address spaces whose upper-half entries the tag cannot tell apart. */
  lemma KeyCollisionExample()
    ensures Key(0x0101, Vpn(0xffff_ffff_8000_0000)) == Key(0x0102, Vpn(0xffff_ffff_8000_0000))
  {
  }
}
