/** The harts' reservation state and memory as mutable objects. */
module AtomicUnit {
  import opened Bytes
  import opened Reservations

  class AtomicUnit {
    var harts: array<Hart>
    var mem: array<Byte>

    ghost function View(): (m: Machine)
      reads this, harts, mem
    {
      Machine(mem[..], harts[..])
    }

    constructor (n: nat, size: nat)
      ensures fresh(harts) && fresh(mem) && harts.Length == n && mem.Length == size
      ensures forall i :: 0 <= i < n ==> !harts[i].valid && harts[i].granule == NO_RES
    {
      harts := new Hart[n](_ => Hart(false, 0, NO_RES));
      mem := new Byte[size](_ => 0);
    }

    /** Cancel other harts' reservations on what was just stored. */
    static method NoteStoreBy(harts: array<Hart>, h: nat, pa: nat, size: nat)
      modifies harts
      ensures harts[..] == NoteStore(old(harts[..]), h, pa, size)
    {
      for i := 0 to harts.Length
        invariant forall j :: 0 <= j < i ==> harts[j] == NoteStore(old(harts[..]), h, pa, size)[j]
        invariant forall j :: i <= j < harts.Length ==> harts[j] == old(harts[j])
      {
        var g := harts[i].granule;
        if i != h && g != NO_RES && size > 0 && pa / 8 <= g <= (pa + size - 1) / 8 {
          harts[i] := harts[i].(granule := NO_RES);
        }
      }
    }

    method WriteMem(pa: nat, data: seq<Byte>)
      requires pa + |data| <= mem.Length
      modifies mem
      ensures mem[..] == Patch(old(mem[..]), pa, data)
    {
      ghost var before := mem[..];
      for k := 0 to |data|
        invariant forall i :: 0 <= i < mem.Length ==> mem[i] == if pa <= i < pa + k then data[i - pa] else before[i]
      {
        mem[pa + k] := data[k];
      }
      PatchIs(before, pa, data, mem[..]);
    }

    method MemStore(h: nat, pa: nat, data: seq<Byte>)
      requires Ok(View(), Store(h, pa, data))
      modifies harts, mem
      ensures View() == Next(old(View()), Store(h, pa, data))
    {
      WriteMem(pa, data);
      NoteStoreBy(harts, h, pa, |data|);
    }

    method LoadReserved(h: nat, va: nat, pa: nat, size: nat) returns (v: seq<Byte>)
      requires Ok(View(), Lr(h, va, pa, size))
      modifies harts
      ensures View() == Next(old(View()), Lr(h, va, pa, size))
      ensures v == mem[pa..pa + size]
    {
      v := mem[pa..pa + size];
      harts[h] := Hart(true, va, pa / 8);
    }

    /** Returns whether the store happened. */
    method StoreConditional(h: nat, va: nat, pa: nat, data: seq<Byte>) returns (ok: bool)
      requires Ok(View(), Sc(h, va, pa, data))
      modifies harts, mem
      ensures View() == Next(old(View()), Sc(h, va, pa, data))
      ensures ok == Holds(old(harts[h]), va)
    {
      hide Patch, Touches;
      ok := harts[h].valid && harts[h].addr == va && harts[h].granule != NO_RES;
      harts[h] := harts[h].(valid := false);
      if ok {
        WriteMem(pa, data);
        NoteStoreBy(harts, h, pa, |data|);
      }
      harts[h] := harts[h].(granule := NO_RES);
    }

    method ClearReservation(h: nat)
      requires h < harts.Length
      modifies harts
      ensures View() == Next(old(View()), Trap(h))
    {
      harts[h] := harts[h].(valid := false, granule := NO_RES);
    }
  }
}
