/** Memory and the decode cache as mutable objects, in the source's own form. */
module DecodeUnit {
  import opened Bytes
  import opened DecodeCache

  class Ram {
    var mem: array<Byte>
    var epoch: nat
    var flags: array<bool>
    var marked: seq<nat>
    var anyMarked: bool

    ghost function View(): (d: Dram)
      reads this, mem, flags
    {
      Dram(mem[..], epoch, flags[..], marked, anyMarked)
    }

    ghost predicate Valid()
      reads this, mem, flags
    {
      DramOk(View())
    }

    constructor (size: nat)
      ensures Valid() && fresh(mem) && fresh(flags) && mem.Length == size
      ensures epoch == 1 && marked == [] && forall i :: 0 <= i < size ==> mem[i] == 0
    {
      mem := new Byte[size](_ => 0);
      flags := new bool[(size + 4095) / 4096](_ => false);
      epoch, marked, anyMarked := 1, [], false;
    }

    /** The CPU has cached code from the page containing offset. */
    method MarkCodePage(offset: nat)
      requires Valid()
      modifies this`marked, this`anyMarked, flags
      ensures View() == Mark(old(View()), offset)
    {
      var page := offset / 4096;
      if page >= flags.Length || flags[page] {
        return;
      }
      flags[page] := true;
      marked := marked + [page];
      anyMarked := true;
    }

    method InvalidateCode()
      requires Valid()
      modifies this`epoch, this`marked, this`anyMarked, flags
      ensures View() == Invalidate(old(View()))
    {
      epoch := epoch + 1;
      for k := 0 to |marked|
        modifies flags
        invariant forall p :: 0 <= p < flags.Length ==> flags[p] == (old(flags[p]) && p !in marked[..k])
      {
        assert marked[k] in marked;
        flags[marked[k]] := false;
        assert marked[..k + 1] == marked[..k] + [marked[k]];
      }
      assert marked[..|marked|] == marked;
      marked := [];
      anyMarked := false;
      assert flags[..] == Cleared(old(flags[..]), old(marked));
    }

    method NoteWriteTo(offset: nat, size: nat)
      requires Valid()
      modifies this`epoch, this`marked, this`anyMarked, flags
      ensures View() == NoteWrite(old(View()), offset, size)
    {
      if !anyMarked || size == 0 {
        return;
      }
      var page, last := offset / 4096, (offset + size - 1) / 4096;
      while page <= last
        invariant offset / 4096 <= page && unchanged(this) && unchanged(flags)
        invariant forall p :: offset / 4096 <= p < page && p < flags.Length ==> !flags[p]
        decreases last + 1 - page
      {
        if page < flags.Length && flags[page] {
          assert View().flags[page];
          InvalidateCode();
          return;
        }
        page := page + 1;
      }
    }

    /** A store or DMA write. */
    method StoreBytes(offset: nat, data: seq<Byte>) returns (ok: bool)
      requires Valid()
      modifies this`epoch, this`marked, this`anyMarked, flags, mem
      ensures ok == InRange(old(View()), offset, |data|)
      ensures View() == Write(old(View()), offset, data)
    {
      if offset >= mem.Length || |data| > mem.Length - offset {
        return false;
      }
      NoteWriteTo(offset, |data|);
      ghost var before := mem[..];
      for k := 0 to |data|
        modifies mem
        invariant forall i :: 0 <= i < mem.Length ==>
          mem[i] == if offset <= i < offset + k then data[i - offset] else before[i]
      {
        mem[offset + k] := data[k];
      }
      PatchIs(before, offset, data, mem[..]);
      return true;
    }
  }

  class DecodeUnit {
    var cache: array<Entry>
    var epoch: nat

    ghost predicate Valid()
      reads this
    {
      cache.Length == SLOTS
    }

    /** The unit as a hart of the abstract model, under a given mapping. */
    ghost function View(m: Mapping, remapped: bool): (h: Hart)
      requires Valid()
      reads this, cache
    {
      Hart(cache[..], epoch, m, remapped)
    }

    constructor ()
      ensures Valid() && fresh(cache) && epoch == 0 && forall i :: 0 <= i < SLOTS ==> cache[i].pc == EMPTY
    {
      cache := new Entry[SLOTS](_ => Entry(EMPTY, 0, Inst16(0)));
      epoch := 0;
    }

    method Flush()
      requires Valid()
      modifies cache
      ensures cache[..] == Flushed(old(cache[..]))
    {
      for i := 0 to cache.Length
        invariant forall j :: 0 <= j < i ==> cache[j] == old(cache[j]).(pc := EMPTY)
        invariant forall j :: i <= j < cache.Length ==> cache[j] == old(cache[j])
      {
        cache[i] := cache[i].(pc := EMPTY);
      }
    }

    method SyncWith(ram: Ram, ghost m: Mapping, ghost remapped: bool)
      requires Valid()
      modifies this`epoch, cache
      ensures Valid() && View(m, remapped) == Sync(ram.View(), old(View(m, remapped)))
    {
      if ram.epoch != epoch {
        Flush();
        epoch := ram.epoch;
      }
    }

    method Fill(ram: Ram, m: Mapping, pc: nat, priv: nat, inst: Inst, ghost remapped: bool)
      requires Valid() && ram.Valid()
      modifies cache, ram`marked, ram`anyMarked, ram.flags
      ensures Valid() && ram.Valid()
      ensures var f := CacheFill(old(ram.View()), old(View(m, remapped)), pc, priv, inst);
              ram.View() == f.d && View(m, remapped) == f.h
    {
      hide Mark, OffsetOf;
      if Length(inst) == 4 && pc % 4096 == 4094 {
        return;
      }
      var o := Locate(ram, m, pc, priv, Length(inst));
      if o < 0 {
        return;
      }
      OffsetFits(ram.View(), m, pc, priv, Length(inst));
      MarkOk(ram.View(), o);
      ram.MarkCodePage(o);
      cache[SlotOf(pc)] := Entry(pc, priv, inst);
    }

    /** The instruction to execute at pc: from the cache, or fetched and remembered. On a miss the page
        walks of the fetch write `ws` first. */
    method Lookup(ram: Ram, m: Mapping, pc: nat, priv: nat, ws: seq<Patched>, ghost remapped: bool) returns (got: Fetch)
      requires Valid() && ram.Valid()
      modifies this`epoch, cache, ram`epoch, ram`marked, ram`anyMarked, ram.flags, ram.mem
      ensures Valid() && ram.Valid()
      ensures var s := Step(old(ram.View()), old(View(m, remapped)), pc, priv, ws);
              got == s.got && ram.View() == s.d && View(m, remapped) == s.h
    {
      hide FetchInst, Sync, CacheFill, DramOk, WriteAll;
      SyncWith(ram, m, remapped);
      var i := SlotOf(pc);
      if cache[i].pc == pc && cache[i].priv == priv {
        return Fetched(cache[i].inst);
      }
      WalkerWrites(ram, ws);
      got := Fetch(ram, m, pc, priv);
      if got.Fetched? {
        Fill(ram, m, pc, priv, got.inst, remapped);
      }
    }

    /** The accessed bits a fetch's page walks set, in order. */
    method WalkerWrites(ram: Ram, ws: seq<Patched>)
      requires Valid() && ram.Valid()
      modifies ram`epoch, ram`marked, ram`anyMarked, ram.flags, ram.mem
      ensures ram.Valid() && ram.View() == WriteAll(old(ram.View()), ws)
    {
      hide DramOk, Write;
      assert ws[0..] == ws;
      for k := 0 to |ws|
        invariant ram.Valid() && WriteAll(ram.View(), ws[k..]) == WriteAll(old(ram.View()), ws)
      {
        assert ws[k..][0] == ws[k] && ws[k..][1..] == ws[k + 1..];
        WriteOk(ram.View(), ws[k].offset, ws[k].data);
        var ok := ram.StoreBytes(ws[k].offset, ws[k].data);
      }
    }

    method Locate(ram: Ram, m: Mapping, pc: nat, priv: nat, size: nat) returns (o: int)
      ensures o == OffsetOf(ram.View(), m, pc, priv, size)
    {
      if (pc / 4096, priv) !in m {
        return -1;
      }
      var pa := m[(pc / 4096, priv)] * 4096 + pc % 4096;
      if pa < DRAM_BASE || pa - DRAM_BASE >= ram.mem.Length || size > ram.mem.Length - (pa - DRAM_BASE) {
        return -2;
      }
      return pa - DRAM_BASE;
    }

    method Fetch(ram: Ram, m: Mapping, pc: nat, priv: nat) returns (got: Fetch)
      ensures got == FetchInst(ram.View(), m, pc, priv)
    {
      if pc % 2 == 1 {
        return Misaligned;
      }
      var o := Locate(ram, m, pc, priv, 2);
      if o < 0 {
        return if o == -1 then Fault else Elsewhere;
      }
      var low: nat := ram.mem[o] + 256 * ram.mem[o + 1] as int;
      if low % 4 != 3 {
        return Fetched(Inst16(low));
      }
      var o2 := Locate(ram, m, pc + 2, priv, 2);
      if o2 < 0 {
        return if o2 == -1 then Fault else Elsewhere;
      }
      return Fetched(Inst32(low, ram.mem[o2] + 256 * ram.mem[o2 + 1] as int));
    }
  }
}
