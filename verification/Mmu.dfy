/** The memory-management unit as the source runs it: a slot array updated in place, a walk
    that is a loop over tables, and the two-pass store. */
module Mmu {
  import opened Bits
  import opened Sv39
  import opened TlbCoherence
  import opened PageCrossing
  import Reservations
  import AtomicUnit

  class Mmu {
    var tlb: array<Entry>
    var hits: nat
    var misses: nat

    ghost predicate Valid()
      reads this
    {
      tlb.Length == SLOTS
    }

    ghost function Cache(): (t: Tlb)
      requires Valid()
      reads this, tlb
    {
      tlb[..]
    }

    constructor ()
      ensures Valid() && fresh(tlb) && hits == 0 && misses == 0
      ensures forall i :: 0 <= i < SLOTS ==> tlb[i].tag == INVALID_TAG
    {
      tlb := new Entry[SLOTS](_ => Entry(INVALID_TAG, 0, 0, 0));
      hits := 0;
      misses := 0;
    }

    /** Discard every cached translation. */
    method Flush()
      requires Valid()
      modifies tlb
      ensures Cache() == Flushed(old(Cache()))
    {
      for i := 0 to tlb.Length
        invariant forall j :: 0 <= j < i ==> tlb[j] == old(tlb[j]).(tag := INVALID_TAG)
        invariant forall j :: i <= j < tlb.Length ==> tlb[j] == old(tlb[j])
      {
        tlb[i] := tlb[i].(tag := INVALID_TAG);
      }
    }

    /** The table walk. */
    method Walk(ram: array<Word>, root: nat, va: Word) returns (r: Walk)
      ensures r == WalkFrom(ram[..], root, va, 2)
    {
      hide Bit, Ppn;
      var table, level := root, 2;
      while level >= 0
        invariant -1 <= level <= 2
        invariant WalkFrom(ram[..], root, va, 2) == if level >= 0 then WalkFrom(ram[..], table, va, level) else NoLeaf
      {
        var addr := EntryAddr(table, va, level);
        if addr < DRAM_BASE || (addr - DRAM_BASE) / 8 >= ram.Length {
          return NoLeaf;
        }
        var entry := ram[(addr - DRAM_BASE) / 8];
        if !V(entry) || (W(entry) && !R(entry)) {
          return NoLeaf;
        }
        if IsLeaf(entry) {
          return Leaf(entry, level, addr);
        }
        table := NextTable(entry);
        level := level - 1;
      }
      return NoLeaf;
    }

    /** Translate one access, through the cache. */
    method Translate(ram: array<Word>, satp: Satp, acc: Access) returns (r: Result)
      requires Valid()
      modifies this`hits, this`misses, tlb, ram
      ensures Valid()
      ensures var c := TlbTranslate(old(ram[..]), old(Cache()), satp, acc);
              r == c.result && ram[..] == c.mem && Cache() == c.tlb
      ensures var hit := Translates(satp, acc) && Hits(old(Cache()), satp, acc.va);
              && hits == old(hits) + (if hit && r.Ok? then 1 else 0)
              && misses == old(misses) + (if Translates(satp, acc) && CanonicalVa(acc.va) && !hit then 1 else 0)
    {
      hide Bit, SetBit, Ppn, WalkFrom, PageOf, Permitted, Physical, Key;
      if !Translates(satp, acc) {
        return Ok(acc.va);
      }
      if !CanonicalVa(acc.va) {
        return PageFault;
      }
      var i := Slot(acc.va);
      var e := tlb[i];
      KeyBound(satp.asid, acc.va);
      if e.tag == Key(satp.asid, Vpn(acc.va)) {
        if !Permitted(e.perms, acc.ty, acc.priv, acc.sum, acc.mxr) {
          return PageFault;
        }
        if acc.ty == Write && !D(e.perms) {
          tlb[i] := e.(perms := SetD(e.perms));
          StoreWord(ram, e.addr, SetD(e.perms));
        }
        hits := hits + 1;
        return Ok(Physical(e.ppn, acc.va));
      }
      misses := misses + 1;
      var leaf := Walk(ram, satp.ppn * 4096, acc.va);
      if leaf.NoLeaf? {
        return PageFault;
      }
      var ppn := PageOf(leaf.w, leaf.level, acc.va);
      if !Permitted(leaf.w, acc.ty, acc.priv, acc.sum, acc.mxr) || ppn < 0 {
        return PageFault;
      }
      var updated := Touched(leaf.w, acc.ty);
      if updated != leaf.w {
        StoreWord(ram, leaf.addr, updated);
      }
      tlb[i] := Entry(Key(satp.asid, Vpn(acc.va)), ppn, updated, leaf.addr);
      return Ok(Physical(ppn, acc.va));
    }

    method StoreWord(ram: array<Word>, addr: nat, w: Word)
      modifies ram
      ensures ram[..] == Store(old(ram[..]), addr, w)
    {
      if DRAM_BASE <= addr && (addr - DRAM_BASE) / 8 < ram.Length {
        ram[(addr - DRAM_BASE) / 8] := w;
      }
    }

    /** A store whose bytes may fall in two pages. */
    method StoreAcrossPages(ram: array<Word>, peers: array<Reservations.Hart>, h: nat, satp: Satp, acc: Access,
                            size: nat, value: nat)
      returns (r: StoreResult)
      requires Valid() && acc.ty == Write && size <= 8
      modifies this`hits, this`misses, tlb, ram, peers
      ensures Valid()
      ensures var out := StoreAcross(old(ram[..]), old(Cache()), old(peers[..]), h, satp, acc, size, value);
              r == out.result && ram[..] == out.mem && Cache() == out.tlb && peers[..] == out.peers
    {
      hide TlbTranslate, StoreByte, ByteOf, InRam, Reservations.NoteStore;
      ghost var mem, cache: Tlb := ram[..], Cache();
      var i := 0;
      while i < size
        invariant Valid() && tlb == old(tlb) && 0 <= i <= size
        invariant peers[..] == old(peers[..])
        invariant PassOne(mem, cache, satp, acc, size, 0) == PassOne(ram[..], Cache(), satp, acc, size, i)
      {
        var t := Translate(ram, satp, ByteAt(acc, i));
        if t.PageFault? {
          return StorePageFault;
        }
        i := i + 1;
      }
      i := 0;
      while i < size
        invariant Valid() && tlb == old(tlb) && 0 <= i <= size
        invariant StoreAcross(mem, cache, old(peers[..]), h, satp, acc, size, value) ==
                  PassTwo(ram[..], Cache(), peers[..], h, satp, acc, size, value, i)
      {
        var t := Translate(ram, satp, ByteAt(acc, i));
        if t.PageFault? {
          return StorePageFault;
        }
        if !InRam(ram[..], t.pa) {
          return StoreAccessFault;
        }
        WriteByte(ram, t.pa, ByteOf(value, i));
        AtomicUnit.AtomicUnit.NoteStoreBy(peers, h, t.pa, 1);
        i := i + 1;
      }
      return Stored;
    }

    method WriteByte(ram: array<Word>, pa: nat, b: nat)
      requires InRam(ram[..], pa) && b < 256
      modifies ram
      ensures ram[..] == StoreByte(old(ram[..]), pa, b)
    {
      var i := (pa - DRAM_BASE) / 8;
      Pow256Of8();
      SetByteBound(ram[i], pa % 8, b, 8);
      ram[i] := SetByte(ram[i], pa % 8, b);
    }
  }
}
