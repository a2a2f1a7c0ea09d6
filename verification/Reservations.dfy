/** Load-reserved / store-conditional across harts (`execute_amo`, `note_store`,
    `clear_reservation`). */
module Reservations {
  import opened Bytes

  /** `valid` and `addr` are the hart's own half of the reservation (a virtual address);
      `granule` is the physical 8-byte granule other harts' stores are compared with, or NO_RES. */
  datatype Hart = Hart(valid: bool, addr: nat, granule: int)

  const NO_RES: int := -1

  datatype Machine = Machine(mem: seq<Byte>, harts: seq<Hart>)

  /** One thing that happens. Physical addresses are those the translation gave at the time;
      Dma is any write that is not a hart's own store: a device, or a page-table walker. A store
      that crosses pages is one Store per byte. A trap, a fault in an SC, and a hart start are
      all Trap. */
  datatype Event =
    | Lr(h: nat, va: nat, pa: nat, size: nat)
    | Sc(h: nat, va: nat, pa: nat, data: seq<Byte>)
    | Store(h: nat, pa: nat, data: seq<Byte>)
    | Trap(h: nat)
    | Dma(pa: nat, data: seq<Byte>)

  ghost predicate Ok(m: Machine, ev: Event) {
    match ev
    case Lr(h, va, pa, size) => h < |m.harts| && (size == 4 || size == 8) && pa % size == 0 && pa + size <= |m.mem|
    case Sc(h, va, pa, data) =>
      h < |m.harts| && (|data| == 4 || |data| == 8) && pa % |data| == 0 && pa + |data| <= |m.mem|
    case Store(h, pa, data) => h < |m.harts| && data != [] && pa + |data| <= |m.mem|
    case Trap(h) => h < |m.harts|
    case Dma(pa, data) => data != [] && pa + |data| <= |m.mem|
  }

  /** Does a store of `size` bytes at pa touch granule g? */
  predicate Touches(pa: nat, size: nat, g: int) {
    size > 0 && pa / 8 <= g <= (pa + size - 1) / 8
  }

  /** Every other hart holding a reservation the store touches loses it. */
  function NoteStore(harts: seq<Hart>, h: nat, pa: nat, size: nat): (r: seq<Hart>)
    ensures |r| == |harts|
  {
    seq(|harts|, i requires 0 <= i < |harts| =>
      if i != h && harts[i].granule != NO_RES && Touches(pa, size, harts[i].granule)
      then harts[i].(granule := NO_RES) else harts[i])
  }

  predicate Holds(hart: Hart, va: nat) {
    hart.valid && hart.addr == va && hart.granule != NO_RES
  }

  function Next(m: Machine, ev: Event): (n: Machine)
    requires Ok(m, ev)
    ensures |n.mem| == |m.mem| && |n.harts| == |m.harts|
  {
    match ev
    case Lr(h, va, pa, size) => m.(harts := m.harts[h := Hart(true, va, pa / 8)])
    case Sc(h, va, pa, data) =>
      var spent := m.harts[h].(valid := false, granule := NO_RES);
      if Holds(m.harts[h], va) then Machine(Patch(m.mem, pa, data), NoteStore(m.harts, h, pa, |data|)[h := spent])
      else m.(harts := m.harts[h := spent])
    case Store(h, pa, data) => Machine(Patch(m.mem, pa, data), NoteStore(m.harts, h, pa, |data|))
    case Trap(h) => m.(harts := m.harts[h := m.harts[h].(valid := false, granule := NO_RES)])
    case Dma(pa, data) => m.(mem := Patch(m.mem, pa, data))
  }

  // --- runs ---------------------------------------------------------------------------------

  ghost predicate OkRun(m: Machine, evs: seq<Event>)
    decreases |evs|, 0
  {
    evs == [] || (OkRun(m, evs[..|evs| - 1]) && Ok(After(m, evs[..|evs| - 1]), evs[|evs| - 1]))
  }

  /** The state after a run. */
  ghost function After(m: Machine, evs: seq<Event>): (n: Machine)
    requires OkRun(m, evs)
    ensures |n.mem| == |m.mem| && |n.harts| == |m.harts|
    decreases |evs|, 1
  {
    if evs == [] then m else Next(After(m, evs[..|evs| - 1]), evs[|evs| - 1])
  }

  lemma {:induction false} OkPrefix(m: Machine, evs: seq<Event>, k: nat)
    requires OkRun(m, evs) && k <= |evs|
    ensures OkRun(m, evs[..k])
    decreases |evs|
  {
    if k < |evs| {
      var init := evs[..|evs| - 1];
      OkPrefix(m, init, k);
      assert init[..k] == evs[..k];
    } else {
      assert evs[..k] == evs;
    }
  }

  /** The state just before event k. */
  ghost function At(m: Machine, evs: seq<Event>, k: nat): (n: Machine)
    requires OkRun(m, evs) && k <= |evs|
    ensures |n.mem| == |m.mem| && |n.harts| == |m.harts|
  {
    OkPrefix(m, evs, k);
    After(m, evs[..k])
  }

  lemma AtZero(m: Machine, evs: seq<Event>)
    requires OkRun(m, evs)
    ensures At(m, evs, 0) == m
  {
    assert evs[..0] == [];
  }

  lemma AtSucc(m: Machine, evs: seq<Event>, k: nat)
    requires OkRun(m, evs) && k < |evs|
    ensures Ok(At(m, evs, k), evs[k]) && At(m, evs, k + 1) == Next(At(m, evs, k), evs[k])
  {
    OkPrefix(m, evs, k + 1);
    OkPrefix(m, evs, k);
    var p := evs[..k + 1];
    assert p[..|p| - 1] == evs[..k] && p[|p| - 1] == evs[k];
  }

  /** The bytes a completed store of hart g wrote, if event k is one. */
  ghost predicate Stores(m: Machine, evs: seq<Event>, k: nat, g: nat, pa: nat, size: nat)
    requires OkRun(m, evs) && k < |evs|
  {
    match evs[k]
    case Store(h, a, data) => h == g && a == pa && |data| == size
    case Sc(h, va, a, data) => h == g && a == pa && |data| == size && h < |m.harts| && Holds(At(m, evs, k).harts[h], va)
    case _ => false
  }

  /** Event k neither re-reserves, traps or spends hart h's reservation, nor is a completed
      store by another hart to granule g. */
  ghost predicate Undisturbed(m: Machine, evs: seq<Event>, k: nat, h: nat, g: int)
    requires OkRun(m, evs) && k < |evs|
  {
    && !(evs[k].Lr? && evs[k].h == h) && !(evs[k].Sc? && evs[k].h == h) && evs[k] != Trap(h)
    && forall q, pa, size :: q != h && Stores(m, evs, k, q, pa, size) ==> !Touches(pa, size, g)
  }

  /** The LR at j is what the reservation hart h holds before event k goes back to. */
  ghost predicate Linked(m: Machine, evs: seq<Event>, j: nat, k: nat, h: nat, va: nat)
    requires OkRun(m, evs) && k <= |evs|
  {
    && j < k && evs[j].Lr? && evs[j].h == h && evs[j].va == va
    && forall i :: j < i < k ==> Undisturbed(m, evs, i, h, evs[j].pa / 8)
  }

  lemma LinkGrows(m: Machine, evs: seq<Event>, j: nat, k: nat, h: nat, va: nat)
    requires OkRun(m, evs) && k < |evs| && Linked(m, evs, j, k, h, va) && Undisturbed(m, evs, k, h, evs[j].pa / 8)
    ensures Linked(m, evs, j, k + 1, h, va)
  {
    hide Undisturbed;
  }

  /** A reservation that survives event k was not disturbed by it. */
  lemma SurvivorUndisturbed(m: Machine, evs: seq<Event>, k: nat, h: nat)
    requires OkRun(m, evs) && k < |evs| && h < |m.harts|
    requires !(evs[k].Lr? && evs[k].h == h)
    requires var x := At(m, evs, k + 1).harts[h]; x.valid && x.granule != NO_RES
    ensures At(m, evs, k).harts[h] == At(m, evs, k + 1).harts[h]
    ensures Undisturbed(m, evs, k, h, At(m, evs, k).harts[h].granule)
  {
    hide At;
    AtSucc(m, evs, k);
  }

  /** Every live reservation goes back to an LR, undisturbed since. */
  lemma {:induction false} ReservationLinked(m: Machine, evs: seq<Event>, k: nat, h: nat) returns (j: nat)
    requires OkRun(m, evs) && k <= |evs| && h < |m.harts|
    requires forall i :: 0 <= i < |m.harts| ==> !m.harts[i].valid
    requires var x := At(m, evs, k).harts[h]; x.valid && x.granule != NO_RES
    ensures var x := At(m, evs, k).harts[h];
            Linked(m, evs, j, k, h, x.addr) && evs[j].pa / 8 == x.granule
    decreases k
  {
    j := 0;
    AtZero(m, evs);
    if k > 0 {
      AtSucc(m, evs, k - 1);
      if evs[k - 1].Lr? && evs[k - 1].h == h {
        j := k - 1;
      } else {
        SurvivorUndisturbed(m, evs, k - 1, h);
        j := ReservationLinked(m, evs, k - 1, h);
        LinkGrows(m, evs, j, k - 1, h, At(m, evs, k).harts[h].addr);
      }
    }
  }

  /** A successful SC: since the LR it pairs with, no other hart completed a store to the
      granule, and this hart took no trap, made no other LR and attempted no other SC. */
  lemma SuccessfulSc(m: Machine, evs: seq<Event>, k: nat) returns (j: nat)
    requires OkRun(m, evs) && k < |evs| && evs[k].Sc? && evs[k].h < |m.harts|
    requires forall i :: 0 <= i < |m.harts| ==> !m.harts[i].valid
    requires Holds(At(m, evs, k).harts[evs[k].h], evs[k].va)
    ensures Linked(m, evs, j, k, evs[k].h, evs[k].va)
  {
    j := ReservationLinked(m, evs, k, evs[k].h);
  }

  /** A store touches a granule exactly when it writes one of its bytes. */
  lemma TouchesMeans(pa: nat, size: nat, g: nat)
    ensures Touches(pa, size, g) <==>
      exists b: nat {:trigger InGranuleOf(b, g)} :: pa <= b < pa + size && InGranuleOf(b, g)
  {
    if Touches(pa, size, g) {
      assert InGranuleOf(if pa <= 8 * g then 8 * g else pa, g);
    }
  }

  predicate InGranuleOf(b: nat, g: nat) { 8 * g <= b < 8 * g + 8 }

  /** From an LR on, as long as nothing disturbs it, the reservation stands. */
  lemma {:induction false} LinkHolds(m: Machine, evs: seq<Event>, j: nat, k: nat, h: nat, va: nat)
    requires OkRun(m, evs) && k <= |evs| && h < |m.harts| && Linked(m, evs, j, k, h, va)
    ensures At(m, evs, k).harts[h] == Hart(true, va, evs[j].pa / 8)
    decreases k
  {
    hide At;
    AtSucc(m, evs, k - 1);
    if j < k - 1 {
      LinkHolds(m, evs, j, k - 1, h, va);
      assert Undisturbed(m, evs, k - 1, h, evs[j].pa / 8);
      StandsUndisturbed(m, evs, k - 1, h);
    }
  }

  lemma StandsUndisturbed(m: Machine, evs: seq<Event>, k: nat, h: nat)
    requires OkRun(m, evs) && k < |evs| && h < |m.harts|
    requires Undisturbed(m, evs, k, h, At(m, evs, k).harts[h].granule)
    ensures At(m, evs, k + 1).harts[h] == At(m, evs, k).harts[h]
  {
    hide At, Touches;
    AtSucc(m, evs, k);
    var s := At(m, evs, k);
    match evs[k]
    case Store(q, pa, data) => assert Stores(m, evs, k, q, pa, |data|);
    case Sc(q, va, pa, data) => if Holds(s.harts[q], va) { assert Stores(m, evs, k, q, pa, |data|); }
    case _ =>
  }

  /** An LR to the same address precedes the SC, with nothing disturbing it in between. */
  ghost predicate Paired(m: Machine, evs: seq<Event>, k: nat)
    requires OkRun(m, evs) && k < |evs| && evs[k].Sc?
  {
    exists j: nat :: Linked(m, evs, j, k, evs[k].h, evs[k].va)
  }

  /** What an SC does: it stores exactly when an undisturbed LR to its address precedes it, writing then
      its bytes and no others, and leaves its hart without a reservation either way. */
  lemma ScOutcome(m: Machine, evs: seq<Event>, k: nat)
    requires OkRun(m, evs) && k < |evs| && evs[k].Sc?
    requires forall i :: 0 <= i < |m.harts| ==> !m.harts[i].valid
    ensures evs[k].h < |m.harts|
    ensures Holds(At(m, evs, k).harts[evs[k].h], evs[k].va) <==> Paired(m, evs, k)
    ensures var mine := At(m, evs, k + 1).harts[evs[k].h]; !mine.valid && mine.granule == NO_RES
    ensures var before, after, pa, data := At(m, evs, k).mem, At(m, evs, k + 1).mem, evs[k].pa, evs[k].data;
            && |after| == |before|
            && forall b :: 0 <= b < |before| ==>
                 after[b] == if Paired(m, evs, k) && pa <= b < pa + |data| then data[b - pa] else before[b]
  {
    hide At, Undisturbed, Touches, OkRun;
    AtSucc(m, evs, k);
    if Holds(At(m, evs, k).harts[evs[k].h], evs[k].va) {
      var j := SuccessfulSc(m, evs, k);
    } else if Paired(m, evs, k) {
      var j: nat :| Linked(m, evs, j, k, evs[k].h, evs[k].va);
      LinkHolds(m, evs, j, k, evs[k].h, evs[k].va);
    }
  }

  // --- the value read is still there -----------------------------------------------------------

  /** Event i writes the granule by a path reservations do not watch: DMA, a walker, or the
      hart's own store. */
  ghost predicate Unwatched(evs: seq<Event>, i: nat, h: nat, g: int)
    requires i < |evs| && 0 <= g
  {
    match evs[i]
    case Dma(pa, data) => Touches(pa, |data|, g)
    case Store(q, pa, data) => q == h && Touches(pa, |data|, g)
    case _ => false
  }

  function Granule(mem: seq<Byte>, g: nat): seq<Byte>
    requires 8 * g + 8 <= |mem|
  {
    mem[8 * g..8 * g + 8]
  }

  lemma PatchElsewhere(mem: seq<Byte>, pa: nat, data: seq<Byte>, g: nat)
    requires data != [] && pa + |data| <= |mem| && 8 * g + 8 <= |mem| && !Touches(pa, |data|, g)
    ensures Granule(Patch(mem, pa, data), g) == Granule(mem, g)
  {
    hide Patch;
    assert 8 * g + 8 <= pa || pa + |data| <= 8 * g;
    PatchApart(mem, pa, data, 8 * g, 8);
  }

  lemma QuietStep(m: Machine, evs: seq<Event>, i: nat, h: nat, g: nat)
    requires OkRun(m, evs) && i < |evs| && 8 * g + 8 <= |m.mem|
    requires Undisturbed(m, evs, i, h, g) && !Unwatched(evs, i, h, g)
    ensures Granule(At(m, evs, i + 1).mem, g) == Granule(At(m, evs, i).mem, g)
  {
    hide At, Granule, Touches, Patch;
    AtSucc(m, evs, i);
    var s := At(m, evs, i);
    match evs[i]
    case Store(q, pa, data) =>
      if q != h { assert Stores(m, evs, i, q, pa, |data|); }
      PatchElsewhere(s.mem, pa, data, g);
    case Sc(q, va, pa, data) =>
      if Holds(s.harts[q], va) {
        assert Stores(m, evs, i, q, pa, |data|);
        PatchElsewhere(s.mem, pa, data, g);
      }
    case Dma(pa, data) => PatchElsewhere(s.mem, pa, data, g);
    case _ =>
  }

  lemma {:induction false} GranuleHeld(m: Machine, evs: seq<Event>, j: nat, k: nat, n: nat, h: nat, va: nat)
    requires OkRun(m, evs) && k <= |evs| && Linked(m, evs, j, k, h, va) && j < n <= k
    requires 8 * (evs[j].pa / 8) + 8 <= |m.mem|
    requires forall i :: j < i < k ==> !Unwatched(evs, i, h, evs[j].pa / 8)
    ensures Granule(At(m, evs, n).mem, evs[j].pa / 8) == Granule(At(m, evs, j).mem, evs[j].pa / 8)
    decreases n
  {
    hide At, Granule, Undisturbed, Unwatched;
    if n == j + 1 {
      AtSucc(m, evs, j);
    } else {
      GranuleHeld(m, evs, j, k, n - 1, h, va);
      QuietStep(m, evs, n - 1, h, evs[j].pa / 8);
    }
  }

  lemma AlignedInGranule(pa: nat, size: nat)
    requires (size == 4 || size == 8) && pa % size == 0
    ensures pa - 8 * (pa / 8) + size <= 8
  {
    if size == 4 { FourInEight(pa / 4, pa); }
  }

  lemma FourInEight(w: nat, pa: nat)
    requires pa == 4 * w
    ensures pa % 8 <= 4
  {
    assert pa == 8 * (w / 2) + 4 * (w % 2);
  }

  lemma GranuleIs(mem: seq<Byte>, g: nat)
    requires 8 * g + 8 <= |mem|
    ensures Granule(mem, g) == mem[8 * g..8 * g + 8]
  {
  }

  lemma InGranule(mem: seq<Byte>, mem': seq<Byte>, pa: nat, size: nat)
    requires (size == 4 || size == 8) && pa % size == 0 && |mem'| == |mem| && 8 * (pa / 8) + 8 <= |mem|
    requires Granule(mem', pa / 8) == Granule(mem, pa / 8)
    ensures pa + size <= |mem| && mem'[pa..pa + size] == mem[pa..pa + size]
  {
    hide Granule;
    var g := pa / 8;
    var o := pa - 8 * g;
    AlignedInGranule(pa, size);
    GranuleIs(mem, g);
    GranuleIs(mem', g);
    SliceOfSlice(mem, 8 * g, 8 * g + 8, o, o + size);
    SliceOfSlice(mem', 8 * g, 8 * g + 8, o, o + size);
  }

  /** If translation is unchanged and nothing wrote the granule behind the reservation's back,
      a successful SC overwrites exactly the value its LR read. */
  lemma ScSeesLrValue(m: Machine, evs: seq<Event>, j: nat, k: nat)
    requires OkRun(m, evs) && k < |evs| && evs[k].Sc? && Linked(m, evs, j, k, evs[k].h, evs[k].va)
    requires evs[k].pa == evs[j].pa && evs[j].size == |evs[k].data|
    requires 8 * (evs[j].pa / 8) + 8 <= |m.mem|
    requires forall i :: j < i < k ==> !Unwatched(evs, i, evs[k].h, evs[j].pa / 8)
    ensures var pa, size := evs[j].pa, evs[j].size;
            pa + size <= |m.mem| && At(m, evs, k).mem[pa..pa + size] == At(m, evs, j).mem[pa..pa + size]
  {
    hide At, Undisturbed, Unwatched, Granule;
    GranuleHeld(m, evs, j, k, k, evs[k].h, evs[k].va);
    AtSucc(m, evs, j);
    InGranule(At(m, evs, j).mem, At(m, evs, k).mem, evs[j].pa, evs[j].size);
  }

  // --- no update is lost ---------------------------------------------------------------------------

  const U64: nat := 0x1_0000_0000_0000_0000

  function Counter(mem: seq<Byte>, pa: nat): nat
    requires pa + 8 <= |mem|
  {
    Le(mem[pa..pa + 8])
  }

  lemma CounterFits(mem: seq<Byte>, pa: nat)
    requires pa + 8 <= |mem|
    ensures Counter(mem, pa) < U64
  {
    hide Le;
    LeBound(mem[pa..pa + 8]);
    EightBytes();
  }

  lemma EightBytes()
    ensures Pow256(8) == U64
  {
  }

  /** Event k is a successful SC to the counter. */
  ghost predicate Wins(m: Machine, evs: seq<Event>, k: nat, pa: nat)
    requires OkRun(m, evs) && k < |evs|
  {
    evs[k].Sc? && evs[k].pa == pa && evs[k].h < |m.harts| && Holds(At(m, evs, k).harts[evs[k].h], evs[k].va)
  }

  /** The counter's granule is only written by SCs that add one to what their LR read. */
  ghost predicate Disciplined(m: Machine, evs: seq<Event>, k: nat, pa: nat)
    requires OkRun(m, evs) && k < |evs| && pa + 8 <= |m.mem|
  {
    match evs[k]
    case Store(_, a, data) => !Touches(a, |data|, pa / 8)
    case Dma(a, data) => !Touches(a, |data|, pa / 8)
    case Sc(h, va, a, data) =>
      Touches(a, |data|, pa / 8) ==>
        && a == pa && |data| == 8
        && forall j: nat :: Linked(m, evs, j, k, h, va) ==>
             evs[j].pa == pa && evs[j].size == 8 && Le(data) == (Counter(At(m, evs, j).mem, pa) + 1) % U64
    case _ => true
  }

  ghost function WinsBefore(m: Machine, evs: seq<Event>, k: nat, pa: nat): nat
    requires OkRun(m, evs) && k <= |evs|
  {
    if k == 0 then 0 else WinsBefore(m, evs, k - 1, pa) + (if Wins(m, evs, k - 1, pa) then 1 else 0)
  }

  lemma PatchedCounter(mem: seq<Byte>, pa: nat, data: seq<Byte>)
    requires pa + 8 <= |mem| && |data| == 8
    ensures Counter(Patch(mem, pa, data), pa) == Le(data)
  {
    hide Le;
    assert Patch(mem, pa, data)[pa..pa + 8] == data;
  }

  lemma CounterOfGranule(mem: seq<Byte>, mem': seq<Byte>, pa: nat)
    requires pa % 8 == 0 && pa + 8 <= |mem| && |mem'| == |mem| && Granule(mem', pa / 8) == Granule(mem, pa / 8)
    ensures Counter(mem', pa) == Counter(mem, pa)
  {
    hide Le, Granule;
    InGranule(mem, mem', pa, 8);
  }

  lemma WinAddsOne(m: Machine, evs: seq<Event>, k: nat, pa: nat)
    requires OkRun(m, evs) && k < |evs| && pa % 8 == 0 && pa + 8 <= |m.mem|
    requires forall i :: 0 <= i < |m.harts| ==> !m.harts[i].valid
    requires forall i :: 0 <= i < |evs| ==> Disciplined(m, evs, i, pa)
    requires Wins(m, evs, k, pa) && Touches(pa, |evs[k].data|, pa / 8)
    ensures Counter(At(m, evs, k + 1).mem, pa) == (Counter(At(m, evs, k).mem, pa) + 1) % U64
  {
    hide At, Undisturbed, Granule, Counter, Le, Patch, OkRun;
    var j := SuccessfulSc(m, evs, k);
    AtSucc(m, evs, k);
    assert Disciplined(m, evs, k, pa);
    forall i | j < i < k ensures !Unwatched(evs, i, evs[k].h, evs[j].pa / 8) {
      assert Disciplined(m, evs, i, pa);
    }
    ScSeesLrValue(m, evs, j, k);
    SameCounter(At(m, evs, j).mem, At(m, evs, k).mem, pa);
    PatchedCounter(At(m, evs, k).mem, pa, evs[k].data);
  }

  lemma SameCounter(mem: seq<Byte>, mem': seq<Byte>, pa: nat)
    requires pa + 8 <= |mem| && |mem'| == |mem| && mem'[pa..pa + 8] == mem[pa..pa + 8]
    ensures Counter(mem', pa) == Counter(mem, pa)
  {
  }

  lemma LossKeeps(m: Machine, evs: seq<Event>, k: nat, pa: nat)
    requires OkRun(m, evs) && k < |evs| && pa % 8 == 0 && pa + 8 <= |m.mem|
    requires Disciplined(m, evs, k, pa)
    requires !(Wins(m, evs, k, pa) && Touches(pa, |evs[k].data|, pa / 8))
    ensures Counter(At(m, evs, k + 1).mem, pa) == Counter(At(m, evs, k).mem, pa)
  {
    hide At, Undisturbed, Granule, Counter, Le, Patch, OkRun, Linked, Touches;
    AtSucc(m, evs, k);
    var s := At(m, evs, k);
    match evs[k]
    case Store(_, a, data) =>
      PatchElsewhere(s.mem, a, data, pa / 8);
      CounterOfGranule(s.mem, Patch(s.mem, a, data), pa);
    case Dma(a, data) =>
      PatchElsewhere(s.mem, a, data, pa / 8);
      CounterOfGranule(s.mem, Patch(s.mem, a, data), pa);
    case Sc(h, va, a, data) =>
      if Holds(s.harts[h], va) {
        PatchElsewhere(s.mem, a, data, pa / 8);
        CounterOfGranule(s.mem, Patch(s.mem, a, data), pa);
      }
    case _ =>
  }

  lemma ScTouches(pa: nat, size: nat)
    requires size > 0
    ensures Touches(pa, size, pa / 8)
  {
  }

  /** Increments by LR/SC from any number of harts lose nothing: the counter ends at its start
      plus the number of SCs that succeeded. */
  lemma {:induction false} NoLostUpdates(m: Machine, evs: seq<Event>, k: nat, pa: nat)
    requires OkRun(m, evs) && k <= |evs| && pa % 8 == 0 && pa + 8 <= |m.mem|
    requires forall i :: 0 <= i < |m.harts| ==> !m.harts[i].valid
    requires forall i :: 0 <= i < |evs| ==> Disciplined(m, evs, i, pa)
    ensures Counter(At(m, evs, k).mem, pa) ==
            (Counter(m.mem, pa) + WinsBefore(m, evs, k, pa)) % 0x1_0000_0000_0000_0000
    decreases k
  {
    hide At, Disciplined, Counter, OkRun, Wins, Touches;
    CounterFits(m.mem, pa);
    AtZero(m, evs);
    if k > 0 {
      NoLostUpdates(m, evs, k - 1, pa);
      if Wins(m, evs, k - 1, pa) {
        WinIsSc(m, evs, k - 1, pa);
        WinAddsOne(m, evs, k - 1, pa);
      } else {
        LossKeeps(m, evs, k - 1, pa);
      }
    }
  }

  lemma WinIsSc(m: Machine, evs: seq<Event>, k: nat, pa: nat)
    requires OkRun(m, evs) && k < |evs| && Wins(m, evs, k, pa)
    ensures evs[k].Sc? && evs[k].data != [] && Touches(pa, |evs[k].data|, pa / 8)
  {
    hide At;
    AtSucc(m, evs, k);
    ScTouches(pa, |evs[k].data|);
  }
}
