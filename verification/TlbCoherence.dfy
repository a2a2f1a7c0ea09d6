/** The translation cache is invisible: in every run of translations, fences and satp writes
    by any number of harts, results and memory are those of a machine that always walks. */
module TlbCoherence {
  import opened Bits
  import opened Sv39

  // --- one translation ---------------------------------------------------------------------

  lemma PageOfSame(w: Word, w': Word, level: nat, va: Word, va': Word)
    requires level <= 2 && SameMapping(w, w') && Vpn(va) == Vpn(va')
    ensures PageOf(w, level, va) == PageOf(w', level, va')
  {
    hide V, R, W, X, U, Ppn;
  }

  lemma PermittedSame(w: Word, w': Word, acc: Access)
    requires SameMapping(w, w')
    ensures Permitted(w, acc.ty, acc.priv, acc.sum, acc.mxr) == Permitted(w', acc.ty, acc.priv, acc.sum, acc.mxr)
  {
    hide V, R, W, X, U, Ppn;
  }

  /** A hit gives what the walk would: same answer, same memory. */
  lemma HitAgrees(mem: Mem, tlb: Tlb, satp: Satp, acc: Access)
    requires Translates(satp, acc) && Hits(tlb, satp, acc.va)
    requires EntryFor(mem, satp, acc.va, tlb[Slot(acc.va)])
    ensures var c, o := TlbTranslate(mem, tlb, satp, acc), WalkTranslate(mem, satp, acc);
            c.result == o.result && c.mem == o.mem
  {
    hide Bit, SetBit, Ppn, WalkFrom, PageOf, Permitted, Physical, Key;
    var e := tlb[Slot(acc.va)];
    var r := WalkFrom(mem, satp.ppn * 4096, acc.va, 2);
    SetBitKeeps(e.perms, SetD(e.perms), 7);
    SameReflexive(e.perms);
    PermittedSame(e.perms, r.w, acc);
    SetBitSame(r.w, 6);
    if D(e.perms) { SetBitSame(e.perms, 7); }
    SetBitSame(SetD(e.perms), 7);
  }

  lemma SameReflexive(w: Word)
    ensures SameMapping(w, w)
  {
  }

  /** A miss fills the slot with a correct entry. */
  lemma FillIsCorrect(mem: Mem, tlb: Tlb, satp: Satp, acc: Access)
    requires Translates(satp, acc) && CanonicalVa(acc.va) && !Hits(tlb, satp, acc.va)
    requires TlbTranslate(mem, tlb, satp, acc).result.Ok?
    ensures var c := TlbTranslate(mem, tlb, satp, acc);
            AdStep(mem, c.mem) && EntryFor(c.mem, satp, acc.va, c.tlb[Slot(acc.va)])
  {
    hide Bit, SetBit, Ppn, PageOf, Permitted, Physical, Key, WalkFrom, AdGrows, SameMapping;
    var c := TlbTranslate(mem, tlb, satp, acc);
    var r := WalkFrom(mem, satp.ppn * 4096, acc.va, 2);
    WalkTranslateIsAdStep(mem, satp, acc);
    assert c.mem == WalkTranslate(mem, satp, acc).mem;
    WalkUnderAd(mem, c.mem, satp.ppn * 4096, acc.va, 2);
    var r' := WalkFrom(c.mem, satp.ppn * 4096, acc.va, 2);
    PageOfSame(r.w, r'.w, r.level, acc.va, acc.va);
    SetBitKeeps(r.w, SetA(r.w), 6);
    SetBitKeeps(SetA(r.w), SetD(SetA(r.w)), 7);
    assert r'.w == Touched(r.w, acc.ty);
  }

  lemma EntryForPage(mem: Mem, satp: Satp, va: Word, va': Word, e: Entry)
    requires satp.Paged? && Vpn(va) == Vpn(va') && EntryFor(mem, satp, va, e)
    ensures EntryFor(mem, satp, va', e)
  {
    hide Bit, SetBit, Ppn, WalkFrom;
    WalkByPage(mem, satp.ppn * 4096, va, va', 2);
  }

  lemma SameKeySamePage(asid: nat, va: Word, va': Word)
    requires asid < 0x10000 && CanonicalVa(va) && CanonicalVa(va') && Key(asid, Vpn(va)) == Key(asid, Vpn(va'))
    ensures Vpn(va) == Vpn(va')
  {
    hide Key, Vpn;
    KeyCollision(asid, va, asid, va');
  }

  /** Replacing one slot by a correct entry for its page keeps the cache coherent. */
  lemma FillKeepsCoherent(mem: Mem, tlb: Tlb, satp: Satp, va: Word, e: Entry)
    requires satp.Paged? && CanonicalVa(va) && Coherent(mem, tlb, satp)
    requires e.tag == Key(satp.asid, Vpn(va)) && EntryFor(mem, satp, va, e)
    ensures Coherent(mem, tlb[Slot(va) := e], satp)
  {
    hide EntryFor, Key, Vpn, CanonicalVa;
    var tlb': Tlb := tlb[Slot(va) := e];
    forall x: Word | Hits(tlb', satp, x) ensures EntryFor(mem, satp, x, tlb'[Slot(x)]) {
      if Slot(x) == Slot(va) {
        SameKeySamePage(satp.asid, x, va);
        EntryForPage(mem, satp, va, x, e);
      } else {
        assert Hits(tlb, satp, x);
      }
    }
  }

  /** Cached translation refines the plain walk and keeps its own invariant. */
  lemma TranslateAgrees(mem: Mem, tlb: Tlb, satp: Satp, acc: Access)
    requires Coherent(mem, tlb, satp)
    ensures var c, o := TlbTranslate(mem, tlb, satp, acc), WalkTranslate(mem, satp, acc);
            c.result == o.result && c.mem == o.mem && Coherent(c.mem, c.tlb, satp)
  {
    hide Permitted, Physical, WalkFrom, PageOf, EntryFor, Key, AdStep, Bit, SetBit, Vpn, CanonicalVa;
    var c := TlbTranslate(mem, tlb, satp, acc);
    if Translates(satp, acc) && CanonicalVa(acc.va) {
      WalkTranslateIsAdStep(mem, satp, acc);
      if Hits(tlb, satp, acc.va) {
        HitAgrees(mem, tlb, satp, acc);
        CoherentUnderAd(mem, c.mem, tlb, satp);
        HitKeepsCoherent(mem, tlb, satp, acc);
      } else if c.result.Ok? {
        FillIsCorrect(mem, tlb, satp, acc);
        CoherentUnderAd(mem, c.mem, tlb, satp);
        FillKeepsCoherent(c.mem, tlb, satp, acc.va, c.tlb[Slot(acc.va)]);
      }
    }
  }

  lemma HitKeepsCoherent(mem: Mem, tlb: Tlb, satp: Satp, acc: Access)
    requires Translates(satp, acc) && Hits(tlb, satp, acc.va)
    requires EntryFor(mem, satp, acc.va, tlb[Slot(acc.va)])
    requires Coherent(TlbTranslate(mem, tlb, satp, acc).mem, tlb, satp)
    ensures var c := TlbTranslate(mem, tlb, satp, acc); Coherent(c.mem, c.tlb, satp)
  {
    hide Permitted, Physical, WalkFrom, PageOf, Key, AdStep, Bit, SetBit, Vpn, CanonicalVa;
    var c, e := TlbTranslate(mem, tlb, satp, acc), tlb[Slot(acc.va)];
    if c.tlb != tlb {
      DirtyEntry(mem, satp, acc.va, e);
      FillKeepsCoherent(c.mem, tlb, satp, acc.va, c.tlb[Slot(acc.va)]);
    }
  }

  /** After the hit path writes the dirty bit, the entry and memory agree exactly. */
  lemma DirtyEntry(mem: Mem, satp: Satp, va: Word, e: Entry)
    requires satp.Paged? && EntryFor(mem, satp, va, e)
    ensures EntryFor(Store(mem, e.addr, SetD(e.perms)), satp, va, e.(perms := SetD(e.perms)))
  {
    hide WalkFrom, PageOf, Bit, SetBit, AdGrows, SameMapping, Ppn;
    var r, mem' := WalkFrom(mem, satp.ppn * 4096, va, 2), Store(mem, e.addr, SetD(e.perms));
    SetBitKeeps(e.perms, SetD(e.perms), 7);
    SetBitSame(SetD(e.perms), 7);
    DirtyIsAdStep(mem, e.addr, r.w, SetD(e.perms));
    WalkUnderAd(mem, mem', satp.ppn * 4096, va, 2);
    var r' := WalkFrom(mem', satp.ppn * 4096, va, 2);
    PageOfSame(r.w, r'.w, r.level, va, va);
    AdKeeps(r.w, r'.w);
    assert r'.w == SetD(e.perms);
  }

  lemma DirtyIsAdStep(mem: Mem, addr: nat, w: Word, w': Word)
    requires Load(mem, addr) == w && IsLeaf(w) && (w' == SetD(w) || w' == w)
    ensures AdStep(mem, Store(mem, addr, w'))
  {
    hide Bit, SetBit, IsLeaf;
  }

  // --- runs -----------------------------------------------------------------------------------

  datatype Hart = Hart(tlb: Tlb, satp: Satp)
  datatype Harts = Harts(mem: Mem, harts: seq<Hart>)

  /** SetSatp is the satp write, which also flushes; Fence is SFENCE.VMA or a remote fence;
      DataWrite is any other store to memory, by a hart or a device. */
  datatype Event =
    | Translate(h: nat, acc: Access)
    | SetSatp(h: nat, satp: Satp)
    | Fence(h: nat)
    | DataWrite(i: nat, w: Word)

  datatype Reply = Silent | Reply(result: Result)

  function Flushed(tlb: Tlb): Tlb { seq(SLOTS, i requires 0 <= i < SLOTS => tlb[i].(tag := INVALID_TAG)) }

  predicate InRange(harts: nat, words: nat, ev: Event) {
    if ev.DataWrite? then ev.i < words else ev.h < harts
  }

  /** Does the walk for va read word i? */
  predicate OnPath(mem: Mem, table: nat, va: Word, level: nat, i: nat)
    requires level <= 2
    decreases level
  {
    var addr := EntryAddr(table, va, level);
    var w := Load(mem, addr);
    && w >= 0
    && (i == (addr - DRAM_BASE) / 8
        || (V(w) && !(W(w) && !R(w)) && !IsLeaf(w) && level > 0 && OnPath(mem, NextTable(w), va, level - 1, i)))
  }

  /** Page-table words behind a cached translation change only through walkers' own updates;
      every other word may change freely. */
  ghost predicate Legal(m: Harts, ev: Event) {
    && InRange(|m.harts|, |m.mem|, ev)
    && (ev.DataWrite? ==>
          forall h, va: Word ::
            0 <= h < |m.harts| && m.harts[h].satp.Paged? && Hits(m.harts[h].tlb, m.harts[h].satp, va) ==>
            !OnPath(m.mem, m.harts[h].satp.ppn * 4096, va, 2, ev.i))
  }

  ghost predicate Inv(m: Harts) {
    forall h :: 0 <= h < |m.harts| ==> Coherent(m.mem, m.harts[h].tlb, m.harts[h].satp)
  }

  datatype Stepped = Stepped(m: Harts, reply: Reply)

  function Step(m: Harts, ev: Event): Stepped
    requires InRange(|m.harts|, |m.mem|, ev)
  {
    match ev
    case Translate(h, acc) =>
      var c := TlbTranslate(m.mem, m.harts[h].tlb, m.harts[h].satp, acc);
      Stepped(Harts(c.mem, m.harts[h := m.harts[h].(tlb := c.tlb)]), Reply(c.result))
    case SetSatp(h, satp) => Stepped(m.(harts := m.harts[h := Hart(Flushed(m.harts[h].tlb), satp)]), Silent)
    case Fence(h) => Stepped(m.(harts := m.harts[h := m.harts[h].(tlb := Flushed(m.harts[h].tlb))]), Silent)
    case DataWrite(i, w) => Stepped(m.(mem := m.mem[i := w]), Silent)
  }

  /** The same machine with no caches at all. */
  datatype Plain = Plain(mem: Mem, satps: seq<Satp>)
  datatype PlainStepped = PlainStepped(p: Plain, reply: Reply)

  function PlainStep(p: Plain, ev: Event): PlainStepped
    requires InRange(|p.satps|, |p.mem|, ev)
  {
    match ev
    case Translate(h, acc) =>
      var o := WalkTranslate(p.mem, p.satps[h], acc);
      PlainStepped(p.(mem := o.mem), Reply(o.result))
    case SetSatp(h, satp) => PlainStepped(p.(satps := p.satps[h := satp]), Silent)
    case Fence(h) => PlainStepped(p, Silent)
    case DataWrite(i, w) => PlainStepped(p.(mem := p.mem[i := w]), Silent)
  }

  function Erase(m: Harts): Plain {
    Plain(m.mem, seq(|m.harts|, h requires 0 <= h < |m.harts| => m.harts[h].satp))
  }

  lemma {:induction false} WalkFrame(mem: Mem, table: nat, va: Word, level: nat, i: nat, w: Word)
    requires level <= 2 && i < |mem| && !OnPath(mem, table, va, level, i)
    ensures WalkFrom(mem[i := w], table, va, level) == WalkFrom(mem, table, va, level)
    decreases level
  {
    hide Bit, Ppn;
    var x := Load(mem, EntryAddr(table, va, level));
    if x >= 0 && V(x) && !(W(x) && !R(x)) && !IsLeaf(x) && level > 0 {
      WalkFrame(mem, NextTable(x), va, level - 1, i, w);
    }
  }

  lemma FlushedIsCoherent(mem: Mem, tlb: Tlb, satp: Satp)
    ensures Coherent(mem, Flushed(tlb), satp)
  {
    hide EntryFor, Key, Vpn;
    if satp.Paged? {
      forall va: Word ensures !Hits(Flushed(tlb), satp, va) { KeyBound(satp.asid, va); }
    }
  }

  lemma DataWriteKeepsCoherent(m: Harts, i: nat, w: Word, h: nat)
    requires Inv(m) && Legal(m, DataWrite(i, w)) && h < |m.harts|
    ensures Coherent(m.mem[i := w], m.harts[h].tlb, m.harts[h].satp)
  {
    hide Hits, WalkFrom, OnPath, PageOf, Bit, SetBit;
    var tlb, satp := m.harts[h].tlb, m.harts[h].satp;
    if satp.Paged? {
      forall va: Word | Hits(tlb, satp, va) ensures EntryFor(m.mem[i := w], satp, va, tlb[Slot(va)]) {
        WalkFrame(m.mem, satp.ppn * 4096, va, 2, i, w);
      }
    }
  }

  /** One event: same visible reply, the cache-free machine keeps pace, the invariant holds. */
  lemma StepAgrees(m: Harts, ev: Event)
    requires Inv(m) && Legal(m, ev)
    ensures var s, q := Step(m, ev), PlainStep(Erase(m), ev);
            s.reply == q.reply && Erase(s.m) == q.p && Inv(s.m)
  {
    hide Coherent, TlbTranslate, WalkTranslate, Flushed, AdStep, Hits, OnPath;
    var m' := Step(m, ev).m;
    match ev
    case Translate(h, acc) =>
      TranslateAgrees(m.mem, m.harts[h].tlb, m.harts[h].satp, acc);
      WalkTranslateIsAdStep(m.mem, m.harts[h].satp, acc);
      forall g | 0 <= g < |m.harts| ensures Coherent(m'.mem, m'.harts[g].tlb, m'.harts[g].satp) {
        if g != h { CoherentUnderAd(m.mem, m'.mem, m.harts[g].tlb, m.harts[g].satp); }
      }
    case SetSatp(h, satp) => FlushedIsCoherent(m.mem, m.harts[h].tlb, satp);
    case Fence(h) => FlushedIsCoherent(m.mem, m.harts[h].tlb, m.harts[h].satp);
    case DataWrite(i, w) =>
      forall g | 0 <= g < |m.harts| ensures Coherent(m'.mem, m'.harts[g].tlb, m'.harts[g].satp) {
        DataWriteKeepsCoherent(m, i, w, g);
      }
  }

  ghost predicate LegalRun(m: Harts, evs: seq<Event>)
    decreases |evs|
  {
    evs != [] ==> Legal(m, evs[0]) && LegalRun(Step(m, evs[0]).m, evs[1..])
  }

  datatype Ran = Ran(replies: seq<Reply>, end: Plain)

  /** What a run shows: its replies, and the memory and satps it ends with. */
  ghost function Run(m: Harts, evs: seq<Event>): Ran
    requires LegalRun(m, evs)
    decreases |evs|
  {
    if evs == [] then Ran([], Erase(m))
    else
      var rest := Run(Step(m, evs[0]).m, evs[1..]);
      Ran([Step(m, evs[0]).reply] + rest.replies, rest.end)
  }

  ghost predicate PlainRuns(p: Plain, evs: seq<Event>, ran: Ran)
    decreases |evs|
  {
    if evs == [] then ran == Ran([], p)
    else
      && InRange(|p.satps|, |p.mem|, evs[0])
      && ran.replies != [] && ran.replies[0] == PlainStep(p, evs[0]).reply
      && PlainRuns(PlainStep(p, evs[0]).p, evs[1..], Ran(ran.replies[1..], ran.end))
  }

  /** Whole runs: the cached machine is the cache-free one. */
  lemma {:induction false} RunAgrees(m: Harts, evs: seq<Event>)
    requires Inv(m) && LegalRun(m, evs)
    ensures PlainRuns(Erase(m), evs, Run(m, evs))
    decreases |evs|
  {
    if evs != [] {
      hide Step, PlainStep, Legal, Inv, InRange;
      StepAgrees(m, evs[0]);
      RunAgrees(Step(m, evs[0]).m, evs[1..]);
      var rest, ran := Run(Step(m, evs[0]).m, evs[1..]), Run(m, evs);
      assert ran.replies[1..] == rest.replies;
      LegalInRange(m, evs[0]);
    }
  }

  lemma LegalInRange(m: Harts, ev: Event)
    requires Legal(m, ev)
    ensures InRange(|Erase(m).satps|, |Erase(m).mem|, ev)
  {
    hide Hits, OnPath;
  }

  /** A machine fresh from reset satisfies the invariant, whatever memory holds. */
  lemma ResetIsCoherent(mem: Mem, satps: seq<Satp>, tlb: Tlb)
    ensures Inv(Harts(mem, seq(|satps|, h requires 0 <= h < |satps| => Hart(Flushed(tlb), satps[h]))))
  {
    hide Coherent, Flushed;
    forall h | 0 <= h < |satps| ensures Coherent(mem, Flushed(tlb), satps[h]) { FlushedIsCoherent(mem, tlb, satps[h]); }
  }
}
