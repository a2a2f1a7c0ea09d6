/** What a translation answers, read off the words in memory: sections 4.3 and 4.4 of the RISC-V
    privileged architecture, with nothing of the code's own walk in it. */
module PageTables {
  import opened Powers
  import opened Bits
  import opened Prelude
  import opened Sv39
  import opened TlbCoherence

  /** The bit of the given weight: V is 1, R is 2, W is 4, X is 8, U is 16, A is 64, D is 128. */
  predicate Flag(w: nat, weight: nat)
    requires weight > 0
  {
    w / weight % 2 == 1
  }

  predicate Holds(mem: Mem, addr: nat, w: Word) {
    DRAM_BASE <= addr && (addr - DRAM_BASE) / 8 < |mem| && mem[(addr - DRAM_BASE) / 8] == w
  }

  predicate IsPointer(w: Word) { Flag(w, 1) && !Flag(w, 2) && !Flag(w, 4) && !Flag(w, 8) }

  /** A valid leaf; writable without readable is reserved. */
  predicate IsLeafWord(w: Word) { Flag(w, 1) && (Flag(w, 2) || Flag(w, 8)) && (Flag(w, 4) ==> Flag(w, 2)) }

  /** The page a word names. */
  function PageAddr(w: Word): nat { w / 1024 * 4096 }

  /** How much an entry covers that many levels down: a gigabyte, two megabytes, four kilobytes. */
  function Span(depth: nat): (n: nat)
    ensures n > 0
  {
    if depth <= 1 then 0x4000_0000 else if depth == 2 then 0x20_0000 else 0x1000
  }

  /** The address of the entry for va in a table that many levels down. */
  function EntryIn(table: nat, va: Word, depth: nat): nat { table + 8 * (va / Span(depth) % 512) }

  /** The table below a pointer; its address is cut to 64 bits. */
  function TableOf(w: Word): nat { PageAddr(w) % U64 }

  /** The entries on the way down for va, from the root table: pointers, and last a leaf. */
  predicate Path(mem: Mem, root: nat, va: Word, path: seq<Word>) {
    && 1 <= |path| <= 3
    && Holds(mem, EntryIn(root, va, 1), path[0])
    && (|path| > 1 ==> IsPointer(path[0]) && Holds(mem, EntryIn(TableOf(path[0]), va, 2), path[1]))
    && (|path| > 2 ==> IsPointer(path[1]) && Holds(mem, EntryIn(TableOf(path[1]), va, 3), path[2]))
    && IsLeafWord(path[|path| - 1])
  }

  function LeafAddr(root: nat, va: Word, path: seq<Word>): nat
    requires 1 <= |path| <= 3
  {
    EntryIn(if |path| == 1 then root else TableOf(path[|path| - 2]), va, |path|)
  }

  /** May an access go through a leaf? */
  predicate Allowed(w: Word, acc: Access) {
    && (acc.ty == Write ==> Flag(w, 4))
    && (acc.ty == Fetch ==> Flag(w, 8))
    && (acc.ty == Read ==> Flag(w, 2) || (acc.mxr && Flag(w, 8)))
    && (acc.priv == User ==> Flag(w, 16))
    && (acc.priv == Supervisor ==> !Flag(w, 16) || (acc.sum && acc.ty != Fetch))
  }

  /** The leaf with its accessed bit set, and for a store its dirty bit. */
  function Marked(w: Word, ty: AccessType): nat {
    w + (if Flag(w, 64) then 0 else 64) + (if ty == Write && !Flag(w, 128) then 128 else 0)
  }

  /** Addresses whose upper 26 bits all equal the highest one kept. */
  predicate SignExtended(va: Word) { va < 0x40_0000_0000 || va >= 0xffff_ffc0_0000_0000 }

  predicate Paging(satp: Satp, acc: Access) { satp.Paged? && (acc.priv == User || acc.priv == Supervisor) }

  // --- the walk finds the path --------------------------------------------------------------------

  lemma Flags(w: Word)
    ensures (V(w) <==> Flag(w, 1)) && (R(w) <==> Flag(w, 2)) && (W(w) <==> Flag(w, 4)) && (X(w) <==> Flag(w, 8))
    ensures (U(w) <==> Flag(w, 16)) && (A(w) <==> Flag(w, 64)) && (D(w) <==> Flag(w, 128))
  {
    Weights();
    hide Bit, Pow2;
    BitIs(w, 0, 1);
    BitIs(w, 1, 2);
    BitIs(w, 2, 4);
    BitIs(w, 3, 8);
    BitIs(w, 4, 16);
    BitIs(w, 6, 64);
    BitIs(w, 7, 128);
  }

  lemma Weights()
    ensures Pow2(0) == 1 && Pow2(1) == 2 && Pow2(2) == 4 && Pow2(3) == 8 && Pow2(4) == 16
    ensures Pow2(6) == 64 && Pow2(7) == 128
  {
  }

  lemma Fields(w: Word)
    ensures Ppn(w) == w / 1024 && NextTable(w) == TableOf(w)
  {
    assert Pow2(10) == 1024;
    ShrLowAre(w, 10, 1024);
  }

  lemma EntryAddrIs(table: nat, va: Word, level: nat)
    requires level <= 2
    ensures EntryAddr(table, va, level) == EntryIn(table, va, 3 - level)
  {
  }

  lemma LoadHolds(mem: Mem, addr: nat, w: Word)
    ensures Load(mem, addr) == w <==> Holds(mem, addr, w)
  {
  }

  /** One step of the walk, in terms of the word found. */
  lemma WalkStep(mem: Mem, table: nat, va: Word, level: nat, w: Word)
    requires level <= 2 && Holds(mem, EntryIn(table, va, 3 - level), w)
    ensures IsLeafWord(w) ==> WalkFrom(mem, table, va, level) == Leaf(w, level, EntryIn(table, va, 3 - level))
    ensures IsPointer(w) && level > 0 ==> WalkFrom(mem, table, va, level) == WalkFrom(mem, TableOf(w), va, level - 1)
    ensures !IsLeafWord(w) && (!IsPointer(w) || level == 0) ==> WalkFrom(mem, table, va, level) == NoLeaf
  {
    hide Bit, Flag, Holds, NextTable, EntryAddr, EntryIn, TableOf, Load;
    EntryAddrIs(table, va, level);
    LoadHolds(mem, EntryIn(table, va, 3 - level), w);
    Flags(w);
    Fields(w);
  }

  lemma WalkOfPath(mem: Mem, root: nat, va: Word, path: seq<Word>)
    requires Path(mem, root, va, path)
    ensures WalkFrom(mem, root, va, 2) == Leaf(path[|path| - 1], 3 - |path|, LeafAddr(root, va, path))
  {
    hide WalkFrom, Holds, EntryIn, TableOf, IsPointer, IsLeafWord;
    WalkStep(mem, root, va, 2, path[0]);
    if |path| > 1 { WalkStep(mem, TableOf(path[0]), va, 1, path[1]); }
    if |path| > 2 { WalkStep(mem, TableOf(path[1]), va, 0, path[2]); }
  }

  lemma PathOfWalk(mem: Mem, root: nat, va: Word) returns (path: seq<Word>)
    requires WalkFrom(mem, root, va, 2).Leaf?
    ensures Path(mem, root, va, path)
  {
    hide WalkFrom, Holds, EntryIn, TableOf, IsPointer, IsLeafWord;
    var w2 := EntryRead(mem, root, va, 2);
    path := [w2];
    if IsLeafWord(w2) { return; }
    var w1 := EntryRead(mem, TableOf(w2), va, 1);
    path := [w2, w1];
    if IsLeafWord(w1) { return; }
    var w0 := EntryRead(mem, TableOf(w1), va, 0);
    path := [w2, w1, w0];
  }

  lemma EntryRead(mem: Mem, table: nat, va: Word, level: nat) returns (w: Word)
    requires level <= 2 && WalkFrom(mem, table, va, level).Leaf?
    ensures Holds(mem, EntryIn(table, va, 3 - level), w)
    ensures IsLeafWord(w) || (IsPointer(w) && level > 0 && WalkFrom(mem, TableOf(w), va, level - 1).Leaf?)
  {
    hide Bit, Flag, IsPointer, IsLeafWord, EntryIn, EntryAddr, TableOf;
    EntryAddrIs(table, va, level);
    w := Load(mem, EntryIn(table, va, 3 - level));
    LoadHolds(mem, EntryIn(table, va, 3 - level), w);
    WalkStep(mem, table, va, level, w);
  }

  // --- the answer ---------------------------------------------------------------------------------

  /** A superpage must be aligned to what it covers. */
  lemma PageFound(w: Word, va: Word, depth: nat)
    requires 1 <= depth <= 3
    ensures var page := PageOf(w, 3 - depth, va);
            if PageAddr(w) % Span(depth) != 0 then page == -1
            else page >= 0 && Physical(page, va) == (PageAddr(w) + va % Span(depth)) % U64
  {
    hide Pow2, Shr;
    Fields(w);
    var p, pages := w / 1024, Pages(3 - depth);
    Aligned(p, pages);
    OffsetSplit(va, pages);
    WrapsTogether(p + va / 4096 % pages, va % 4096);
  }

  lemma Aligned(p: nat, pages: nat)
    requires pages == 1 || pages == 512 || pages == 262144
    ensures p * 4096 % (pages * 4096) == 0 <==> p % pages == 0
  {
    var q, r := DivMod(p, pages);
    assert 4096 * (pages * q) == pages * 4096 * q;
    QuotientIs(p * 4096, pages * 4096, q, r * 4096);
  }

  lemma OffsetSplit(va: nat, pages: nat)
    requires pages == 1 || pages == 512 || pages == 262144
    ensures va % (pages * 4096) == va / 4096 % pages * 4096 + va % 4096
  {
    var v, low := DivMod(va, 4096);
    var q, w := DivMod(v, pages);
    assert 4096 * (pages * q) == pages * 4096 * q;
    QuotientIs(va, pages * 4096, q, w * 4096 + low);
  }

  lemma WrapsTogether(page: nat, low: nat)
    requires low < 4096
    ensures page * 4096 % U64 + low == (page * 4096 + low) % U64
  {
    var q, r := DivMod(page * 4096, U64);
    PageBound(page, q, r);
    QuotientIs(page * 4096 + low, U64, q, r + low);
  }

  lemma PageBound(page: nat, q: nat, r: nat)
    requires page * 4096 == U64 * q + r && r < U64
    ensures r + 4096 <= U64
  {
  }

  lemma MarkedIs(w: Word, ty: AccessType)
    ensures Touched(w, ty) == Marked(w, ty)
  {
    Weights();
    hide Bit, SetBit, Pow2, Flag;
    Flags(w);
    SetBitAdds(w, 6);
    SetBitAdds(SetA(w), 7);
    SetBitKeeps(w, SetA(w), 6);
  }

  /** With an entry path for the address: the access goes to the leaf's page, marking the leaf, exactly
      when the leaf allows it and is aligned; otherwise it faults and changes nothing. */
  lemma MappedAnswer(mem: Mem, satp: Satp, acc: Access, path: seq<Word>)
    requires Paging(satp, acc) && SignExtended(acc.va) && Path(mem, satp.ppn * 4096, acc.va, path)
    ensures var w, span := path[|path| - 1], Span(|path|);
            var at := LeafAddr(satp.ppn * 4096, acc.va, path);
            && Holds(mem, at, w) && Marked(w, acc.ty) < U64
            && WalkTranslate(mem, satp, acc) ==
               if Allowed(w, acc) && PageAddr(w) % span == 0
               then Outcome(Ok((PageAddr(w) + acc.va % span) % U64), mem[(at - DRAM_BASE) / 8 := Marked(w, acc.ty)])
               else Outcome(PageFault, mem)
  {
    hide Bit, SetBit, Shr, Flag, Pow2, WalkFrom, PageOf, Physical, PageAddr, Touched, Marked, EntryIn, IsPointer;
    var w := path[|path| - 1];
    Flags(w);
    WalkOfPath(mem, satp.ppn * 4096, acc.va, path);
    PageFound(w, acc.va, |path|);
    MarkedIs(w, acc.ty);
  }

  /** Without one, or with an address that is not sign-extended, it faults. */
  lemma UnmappedAnswer(mem: Mem, satp: Satp, acc: Access)
    requires Paging(satp, acc)
    requires !SignExtended(acc.va) || forall path: seq<Word> :: !Path(mem, satp.ppn * 4096, acc.va, path)
    ensures WalkTranslate(mem, satp, acc) == Outcome(PageFault, mem)
  {
    hide Path, WalkFrom, Permitted, PageOf, Physical, Touched;
    if SignExtended(acc.va) && WalkFrom(mem, satp.ppn * 4096, acc.va, 2).Leaf? {
      var path := PathOfWalk(mem, satp.ppn * 4096, acc.va);
    }
  }

  /** Machine mode and bare mode do not translate. */
  lemma BareAnswer(mem: Mem, satp: Satp, acc: Access)
    requires satp.Bare? || acc.priv == Machine
    ensures WalkTranslate(mem, satp, acc) == Outcome(Ok(acc.va), mem)
  {
  }

  /** The same answers come through a coherent cache. */
  lemma CachedAnswer(mem: Mem, tlb: Tlb, satp: Satp, acc: Access, path: seq<Word>)
    requires Coherent(mem, tlb, satp)
    requires Paging(satp, acc) && SignExtended(acc.va) && Path(mem, satp.ppn * 4096, acc.va, path)
    ensures var w, span := path[|path| - 1], Span(|path|);
            TlbTranslate(mem, tlb, satp, acc).result ==
            if Allowed(w, acc) && PageAddr(w) % span == 0 then Ok((PageAddr(w) + acc.va % span) % U64) else PageFault
  {
    hide TlbTranslate, WalkTranslate, Coherent, Path, Allowed, PageAddr;
    TranslateAgrees(mem, tlb, satp, acc);
    MappedAnswer(mem, satp, acc, path);
  }
}
