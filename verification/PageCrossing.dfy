/** Stores that straddle a page boundary (`store_across_pages`): translate every byte first,
    then write. */
module PageCrossing {
  import opened Powers
  import opened Prelude
  import opened Bits
  import opened Bytes
  import opened Sv39
  import opened TlbCoherence
  import Reservations

  datatype StoreResult = Stored | StorePageFault | StoreAccessFault
  datatype StoreOutcome = StoreOutcome(result: StoreResult, mem: Mem, tlb: Tlb, peers: seq<Reservations.Hart>)

  /** The access to byte i, the address wrapping at 2^64. */
  function ByteAt(acc: Access, i: nat): Access { acc.(va := (acc.va + i) % U64) }

  /** The first pass: translate bytes i, i+1, ..., size-1, stopping at a fault. */
  function PassOne(mem: Mem, tlb: Tlb, satp: Satp, acc: Access, size: nat, i: nat): Cached
    requires i <= size
    decreases size - i
  {
    if i == size then Cached(Ok(0), mem, tlb)
    else
      var c := TlbTranslate(mem, tlb, satp, ByteAt(acc, i));
      if c.result.PageFault? then c else PassOne(c.mem, c.tlb, satp, acc, size, i + 1)
  }

  /** Byte `lane` of a word replaced. */
  function SetByte(w: nat, lane: nat, b: nat): nat {
    if lane == 0 then w / 256 * 256 + b else SetByte(w / 256, lane - 1, b) * 256 + w % 256
  }

  lemma {:induction false} SetByteBound(w: nat, lane: nat, b: nat, n: nat)
    requires lane < n && w < Pow256(n) && b < 256
    ensures SetByte(w, lane, b) < Pow256(n)
    decreases lane
  {
    var h := Pow256(n - 1);
    assert Pow256(n) == 256 * h;
    assert w / 256 < h;
    hide Pow256;
    if lane != 0 { SetByteBound(w / 256, lane - 1, b, n - 1); }
  }

  lemma Pow256Of8()
    ensures Pow256(8) == U64
  {
  }

  /** Byte i of a register. */
  function ByteOf(value: nat, i: nat): (b: nat)
    ensures b < 256
  {
    if i == 0 then value % 256 else ByteOf(value / 256, i - 1)
  }

  predicate InRam(mem: Mem, pa: nat) { DRAM_BASE <= pa < DRAM_BASE + 8 * |mem| }

  function StoreByte(mem: Mem, pa: nat, b: nat): (m: Mem)
    requires InRam(mem, pa) && b < 256
    ensures |m| == |mem|
  {
    var i := (pa - DRAM_BASE) / 8;
    Pow256Of8();
    SetByteBound(mem[i], pa % 8, b, 8);
    mem[i := SetByte(mem[i], pa % 8, b)]
  }

  /** The second pass, on hart h: translate each byte again, store it, and cancel other harts'
      reservations on it. */
  function PassTwo(mem: Mem, tlb: Tlb, peers: seq<Reservations.Hart>, h: nat, satp: Satp, acc: Access, size: nat,
                   value: nat, i: nat): StoreOutcome
    requires i <= size
    decreases size - i
  {
    if i == size then StoreOutcome(Stored, mem, tlb, peers)
    else
      var c := TlbTranslate(mem, tlb, satp, ByteAt(acc, i));
      if c.result.PageFault? then StoreOutcome(StorePageFault, c.mem, c.tlb, peers)
      else if !InRam(c.mem, c.result.pa) then StoreOutcome(StoreAccessFault, c.mem, c.tlb, peers)
      else
        var mem' := StoreByte(c.mem, c.result.pa, ByteOf(value, i));
        PassTwo(mem', c.tlb, Reservations.NoteStore(peers, h, c.result.pa, 1), h, satp, acc, size, value, i + 1)
  }

  function StoreAcross(mem: Mem, tlb: Tlb, peers: seq<Reservations.Hart>, h: nat, satp: Satp, acc: Access, size: nat,
                       value: nat): StoreOutcome {
    var one := PassOne(mem, tlb, satp, acc, size, 0);
    if one.result.PageFault? then StoreOutcome(StorePageFault, one.mem, one.tlb, peers)
    else PassTwo(one.mem, one.tlb, peers, h, satp, acc, size, value, 0)
  }

  // --- reference: bytes written to fixed addresses ------------------------------------------

  /** The physical addresses the first pass finds. */
  function Found(mem: Mem, tlb: Tlb, satp: Satp, acc: Access, size: nat, i: nat): (r: seq<nat>)
    requires i <= size
    requires PassOne(mem, tlb, satp, acc, size, i).result.Ok?
    ensures |r| == size - i
    decreases size - i
  {
    if i == size then []
    else
      var c := TlbTranslate(mem, tlb, satp, ByteAt(acc, i));
      [c.result.pa] + Found(c.mem, c.tlb, satp, acc, size, i + 1)
  }

  /** Store the bytes of `value` from byte i on at the given addresses, with no translation. */
  function StoreAt(mem: Mem, tlb: Tlb, peers: seq<Reservations.Hart>, h: nat, addrs: seq<nat>, value: nat,
                   i: nat): StoreOutcome
    decreases |addrs|
  {
    if addrs == [] then StoreOutcome(Stored, mem, tlb, peers)
    else if !InRam(mem, addrs[0]) then StoreOutcome(StoreAccessFault, mem, tlb, peers)
    else
      var mem' := StoreByte(mem, addrs[0], ByteOf(value, i));
      StoreAt(mem', tlb, Reservations.NoteStore(peers, h, addrs[0], 1), h, addrs[1..], value, i + 1)
  }

  // --- a translated byte stays translated ------------------------------------------------------

  /** A store through acc will hit, needs no page-table write, and goes to pa. */
  ghost predicate Armed(tlb: Tlb, satp: Satp, acc: Access, pa: nat) {
    if !Translates(satp, acc) then pa == acc.va
    else
      var e := tlb[Slot(acc.va)];
      && CanonicalVa(acc.va) && e.tag == Key(satp.asid, Vpn(acc.va))
      && Permitted(e.perms, acc.ty, acc.priv, acc.sum, acc.mxr) && D(e.perms)
      && pa == Physical(e.ppn, acc.va)
  }

  /** Whatever memory holds by then: page tables are not consulted again. */
  lemma ArmedHits(mem: Mem, tlb: Tlb, satp: Satp, acc: Access, pa: nat)
    requires Armed(tlb, satp, acc, pa)
    ensures TlbTranslate(mem, tlb, satp, acc) == Cached(Ok(pa), mem, tlb)
  {
    hide Permitted, Bit, Key, Vpn, Physical, WalkFrom, PageOf;
  }

  lemma TouchedPermitted(w: Word, acc: Access)
    ensures SameMapping(w, Touched(w, acc.ty)) && (acc.ty == Write ==> D(Touched(w, acc.ty)))
  {
    hide Bit, SetBit, Ppn;
    SetBitKeeps(w, SetA(w), 6);
    SetBitKeeps(SetA(w), SetD(SetA(w)), 7);
  }

  /** A successful store translation arms its page. */
  lemma TranslateArms(mem: Mem, tlb: Tlb, satp: Satp, acc: Access)
    requires acc.ty == Write && TlbTranslate(mem, tlb, satp, acc).result.Ok?
    ensures var c := TlbTranslate(mem, tlb, satp, acc); Armed(c.tlb, satp, acc, c.result.pa)
  {
    hide Permitted, Bit, SetBit, Key, Vpn, Physical, WalkFrom, PageOf, CanonicalVa, SameMapping;
    if Translates(satp, acc) {
      var e := tlb[Slot(acc.va)];
      SetBitKeeps(e.perms, SetD(e.perms), 7);
      PermittedSame(e.perms, SetD(e.perms), acc);
      var r := WalkFrom(mem, satp.ppn * 4096, acc.va, 2);
      if r.Leaf? {
        TouchedPermitted(r.w, acc);
        PermittedSame(r.w, Touched(r.w, acc.ty), acc);
      }
    }
  }

  /** Pages that do not compete for a slot. */
  ghost predicate Apart(va: Word, va': Word) { Vpn(va) == Vpn(va') || Slot(va) != Slot(va') }

  lemma ArmedSurvives(mem: Mem, tlb: Tlb, satp: Satp, acc: Access, pa: nat, va: Word)
    requires acc.ty == Write && Armed(tlb, satp, acc, pa) && Apart(acc.va, va)
    ensures Armed(TlbTranslate(mem, tlb, satp, acc.(va := va)).tlb, satp, acc, pa)
  {
    hide Permitted, Bit, SetBit, Key, Physical, WalkFrom, PageOf, CanonicalVa;
  }

  /** The bytes of one store lie in at most two pages, whose slots differ. */
  lemma BytesApart(acc: Access, i: nat, j: nat)
    requires i < 4096 && j < 4096
    ensures Apart(ByteAt(acc, i).va, ByteAt(acc, j).va)
  {
    NextByte(acc.va, i);
    NextByte(acc.va, j);
    NextSlot(acc.va / 4096);
  }

  /** Consecutive pages have different slots, also where the page number wraps. */
  lemma NextSlot(p: nat)
    ensures (p + 1) % 0x10_0000_0000_0000 % SLOTS != p % SLOTS
  {
    NestedMod(p + 1, 0x10_0000_0000_0000 / SLOTS);
  }

  lemma NestedMod(x: nat, k: nat)
    requires k > 0
    ensures x % (SLOTS * k) % SLOTS == x % SLOTS
  {
    var q, r := DivMod(x, SLOTS * k);
    assert x == SLOTS * (k * q) + r by { assert SLOTS * k * q == SLOTS * (k * q); }
    SameRest(x, r, k * q);
  }

  lemma SameRest(x: nat, r: nat, m: nat)
    requires x == SLOTS * m + r
    ensures x % SLOTS == r % SLOTS
  {
  }

  lemma NextByte(va: Word, i: nat)
    requires i < 4096
    ensures var p := va / 4096;
            (va + i) % U64 / 4096 == if va % 4096 + i < 4096 then p else (p + 1) % 0x10_0000_0000_0000
  {
    var p, o := DivMod(va, 4096);
    if va + i < U64 {
      assert va + i == 4096 * p + (o + i);
    } else {
      assert (va + i) % U64 == va + i - U64;
    }
  }

  lemma {:induction false} PassOneSurvives(mem: Mem, tlb: Tlb, satp: Satp, acc: Access, size: nat, i: nat, j: nat,
                                           pa: nat)
    requires i <= size <= 8 && j < 8 && acc.ty == Write && Armed(tlb, satp, ByteAt(acc, j), pa)
    ensures Armed(PassOne(mem, tlb, satp, acc, size, i).tlb, satp, ByteAt(acc, j), pa)
    decreases size - i
  {
    hide Armed, TlbTranslate, Apart;
    if i < size {
      BytesApart(acc, j, i);
      assert ByteAt(acc, i) == ByteAt(acc, j).(va := ByteAt(acc, i).va);
      ArmedSurvives(mem, tlb, satp, ByteAt(acc, j), pa, ByteAt(acc, i).va);
      var c := TlbTranslate(mem, tlb, satp, ByteAt(acc, i));
      if c.result.Ok? { PassOneSurvives(c.mem, c.tlb, satp, acc, size, i + 1, j, pa); }
    }
  }

  /** After a first pass without a fault, every byte is armed at the address found for it. */
  lemma {:induction false} PassOneArms(mem: Mem, tlb: Tlb, satp: Satp, acc: Access, size: nat, i: nat)
    requires i <= size <= 8 && acc.ty == Write && PassOne(mem, tlb, satp, acc, size, i).result.Ok?
    ensures var one, found := PassOne(mem, tlb, satp, acc, size, i), Found(mem, tlb, satp, acc, size, i);
            forall j :: i <= j < size ==> Armed(one.tlb, satp, ByteAt(acc, j), found[j - i])
    decreases size - i
  {
    hide Armed, TlbTranslate;
    if i < size {
      var c := TlbTranslate(mem, tlb, satp, ByteAt(acc, i));
      TranslateArms(mem, tlb, satp, ByteAt(acc, i));
      PassOneSurvives(c.mem, c.tlb, satp, acc, size, i + 1, i, c.result.pa);
      PassOneArms(c.mem, c.tlb, satp, acc, size, i + 1);
    }
  }

  /** With every byte armed the second pass is plain byte stores. */
  lemma {:induction false} PassTwoIsStoreAt(mem: Mem, tlb: Tlb, peers: seq<Reservations.Hart>, h: nat, satp: Satp,
                                            acc: Access, size: nat, value: nat, i: nat, addrs: seq<nat>)
    requires i <= size && |addrs| == size - i
    requires forall j :: i <= j < size ==> Armed(tlb, satp, ByteAt(acc, j), addrs[j - i])
    ensures PassTwo(mem, tlb, peers, h, satp, acc, size, value, i) == StoreAt(mem, tlb, peers, h, addrs, value, i)
    decreases size - i
  {
    hide Armed, TlbTranslate, StoreByte, ByteOf, InRam, Reservations.NoteStore;
    if i < size {
      ArmedHits(mem, tlb, satp, ByteAt(acc, i), addrs[0]);
      if InRam(mem, addrs[0]) {
        var mem' := StoreByte(mem, addrs[0], ByteOf(value, i));
        PassTwoIsStoreAt(mem', tlb, Reservations.NoteStore(peers, h, addrs[0], 1),
                         h, satp, acc, size, value, i + 1, addrs[1..]);
      }
    }
  }

  /** A page-crossing store is all or nothing with respect to page faults. If any byte faults,
      memory is what the translations left and no data byte is written. Otherwise the second
      pass cannot fault on a page and writes exactly the addresses the first pass found, for
      any memory and cache contents and even if the bytes overwrite the page tables. */
  lemma CrossingStore(mem: Mem, tlb: Tlb, peers: seq<Reservations.Hart>, h: nat, satp: Satp, acc: Access, size: nat,
                      value: nat)
    requires acc.ty == Write && size <= 8
    ensures var one := PassOne(mem, tlb, satp, acc, size, 0);
            var out := StoreAcross(mem, tlb, peers, h, satp, acc, size, value);
            if one.result.PageFault? then out == StoreOutcome(StorePageFault, one.mem, one.tlb, peers)
            else
              && out == StoreAt(one.mem, one.tlb, peers, h, Found(mem, tlb, satp, acc, size, 0), value, 0)
              && !out.result.StorePageFault?
  {
    hide Armed, TlbTranslate, StoreAt, Found, PassOne, PassTwo;
    var one := PassOne(mem, tlb, satp, acc, size, 0);
    if one.result.Ok? {
      var found := Found(mem, tlb, satp, acc, size, 0);
      PassOneArms(mem, tlb, satp, acc, size, 0);
      PassTwoIsStoreAt(one.mem, one.tlb, peers, h, satp, acc, size, value, 0, found);
      StoreAtNoPageFault(one.mem, one.tlb, peers, h, found, value, 0);
    }
  }

  lemma {:induction false} StoreAtNoPageFault(mem: Mem, tlb: Tlb, peers: seq<Reservations.Hart>, h: nat,
                                              addrs: seq<nat>, value: nat, i: nat)
    ensures !StoreAt(mem, tlb, peers, h, addrs, value, i).result.StorePageFault?
    decreases |addrs|
  {
    hide StoreByte, ByteOf, InRam, Reservations.NoteStore;
    if addrs != [] && InRam(mem, addrs[0]) {
      var mem' := StoreByte(mem, addrs[0], ByteOf(value, i));
      StoreAtNoPageFault(mem', tlb, Reservations.NoteStore(peers, h, addrs[0], 1), h, addrs[1..], value, i + 1);
    }
  }

  /** It completes exactly when every address is RAM, which begins at 0x80000000. */
  lemma {:induction false} StoresInRam(mem: Mem, tlb: Tlb, peers: seq<Reservations.Hart>, h: nat, addrs: seq<nat>,
                                       value: nat, i: nat)
    ensures StoreAt(mem, tlb, peers, h, addrs, value, i).result == Stored <==>
      forall k :: 0 <= k < |addrs| ==> 0x8000_0000 <= addrs[k] < 0x8000_0000 + 8 * |mem|
    decreases |addrs|
  {
    hide StoreByte, ByteOf, Reservations.NoteStore;
    if addrs != [] && InRam(mem, addrs[0]) {
      var mem' := StoreByte(mem, addrs[0], ByteOf(value, i));
      StoresInRam(mem', tlb, Reservations.NoteStore(peers, h, addrs[0], 1), h, addrs[1..], value, i + 1);
      assert forall k :: 0 < k < |addrs| ==> addrs[k] == addrs[1..][k - 1];
      assert forall k :: 0 <= k < |addrs| - 1 ==> addrs[1..][k] == addrs[k + 1];
    }
  }

  // --- reservations lost to the store -----------------------------------------------------------

  /** How many bytes are stored before one is not RAM. */
  function Count(mem: Mem, addrs: seq<nat>): (n: nat)
    ensures n <= |addrs|
  {
    if addrs == [] || !InRam(mem, addrs[0]) then 0 else 1 + Count(mem, addrs[1..])
  }

  /** Another hart loses its reservation exactly when a byte that was stored lies in its granule,
      also when a later byte is not RAM and the store faults. */
  lemma {:induction false} ReservationLost(mem: Mem, tlb: Tlb, peers: seq<Reservations.Hart>, h: nat,
                                           addrs: seq<nat>, value: nat, i: nat, p: nat)
    requires p < |peers|
    ensures var n, out := Count(mem, addrs), StoreAt(mem, tlb, peers, h, addrs, value, i);
            && (out.result == Stored <==> n == |addrs|) && |out.peers| == |peers|
            && out.peers[p] ==
               if p != h && peers[p].granule != Reservations.NO_RES &&
                  exists k :: 0 <= k < n && addrs[k] / 8 == peers[p].granule
               then peers[p].(granule := Reservations.NO_RES) else peers[p]
    decreases |addrs|
  {
    hide StoreByte, ByteOf;
    if addrs != [] && InRam(mem, addrs[0]) {
      var mem' := StoreByte(mem, addrs[0], ByteOf(value, i));
      SameCount(mem, mem', addrs[1..]);
      ReservationLost(mem', tlb, Reservations.NoteStore(peers, h, addrs[0], 1), h, addrs[1..], value, i + 1, p);
      assert forall k :: 0 <= k < Count(mem, addrs[1..]) ==> addrs[1..][k] == addrs[k + 1];
      assert forall k :: 1 <= k < Count(mem, addrs) ==> addrs[k] == addrs[1..][k - 1];
    }
  }

  lemma {:induction false} SameCount(mem: Mem, mem': Mem, addrs: seq<nat>)
    requires |mem| == |mem'|
    ensures Count(mem, addrs) == Count(mem', addrs)
  {
    if addrs != [] { SameCount(mem, mem', addrs[1..]); }
  }

  // --- the bytes that are stored ----------------------------------------------------------------

  lemma {:induction false} ByteOfIs(value: nat, i: nat, d: nat)
    requires d == Pow256(i)
    ensures d > 0 && ByteOf(value, i) == value / d % 256
    decreases i
  {
    if i > 0 {
      ByteOfIs(value / 256, i - 1, d / 256);
      ByteThen(value, d / 256);
    }
  }

  lemma ByteThen(w: nat, d: nat)
    requires d > 0
    ensures w / 256 / d == w / (256 * d)
  {
    var h, b := DivMod(w, 256);
    var q, r := DivMod(h, d);
    assert 256 * (d * q) == 256 * d * q;
    QuotientIs(w, 256 * d, q, 256 * r + b);
  }

  lemma {:induction false} ByteOfSetByte(w: nat, lane: nat, b: nat, k: nat)
    requires b < 256
    ensures ByteOf(SetByte(w, lane, b), k) == if k == lane then b else ByteOf(w, k)
    decreases lane
  {
    if lane == 0 {
      assert (w / 256 * 256 + b) / 256 == w / 256;
    } else {
      var r := SetByte(w / 256, lane - 1, b);
      assert (r * 256 + w % 256) / 256 == r && (r * 256 + w % 256) % 256 == w % 256;
      if k > 0 { ByteOfSetByte(w / 256, lane - 1, b, k - 1); }
    }
  }

  /** The byte of memory at a physical address: word (a - base) / 8 holds eight of them, the lowest
      first. */
  function ByteIn(mem: Mem, a: nat): nat
    requires InRam(mem, a)
  {
    ByteOf(mem[(a - DRAM_BASE) / 8], a % 8)
  }

  lemma SamePlace(a: nat, pa: nat)
    requires a >= DRAM_BASE && pa >= DRAM_BASE && (a - DRAM_BASE) / 8 == (pa - DRAM_BASE) / 8 && a % 8 == pa % 8
    ensures a == pa
  {
  }

  lemma StoreByteMeans(mem: Mem, pa: nat, b: nat, a: nat)
    requires InRam(mem, pa) && b < 256 && InRam(mem, a)
    ensures ByteIn(StoreByte(mem, pa, b), a) == if a == pa then b else ByteIn(mem, a)
  {
    hide SetByte, ByteOf;
    ByteOfSetByte(mem[(pa - DRAM_BASE) / 8], pa % 8, b, a % 8);
    if (a - DRAM_BASE) / 8 == (pa - DRAM_BASE) / 8 && a % 8 == pa % 8 { SamePlace(a, pa); }
  }

  /** Plain byte stores leave every byte they are not sent to alone. */
  lemma {:induction false} BytesKept(mem: Mem, tlb: Tlb, peers: seq<Reservations.Hart>, h: nat, addrs: seq<nat>,
                                     value: nat, i: nat, a: nat)
    requires InRam(mem, a) && a !in addrs
    ensures var out := StoreAt(mem, tlb, peers, h, addrs, value, i).mem;
            InRam(out, a) && ByteIn(out, a) == ByteIn(mem, a)
    decreases |addrs|
  {
    hide StoreByte, ByteOf, ByteIn, Reservations.NoteStore;
    if addrs != [] && InRam(mem, addrs[0]) {
      StoreByteMeans(mem, addrs[0], ByteOf(value, i), a);
      BytesKept(StoreByte(mem, addrs[0], ByteOf(value, i)), tlb, Reservations.NoteStore(peers, h, addrs[0], 1), h,
                addrs[1..], value, i + 1, a);
    }
  }

  /** They leave byte j of the value, counting from i and the lowest first, at the j-th address, unless
      it is sent another. */
  lemma {:induction false} BytesStored(mem: Mem, tlb: Tlb, peers: seq<Reservations.Hart>, h: nat, addrs: seq<nat>,
                                       value: nat, i: nat, j: nat)
    requires StoreAt(mem, tlb, peers, h, addrs, value, i).result == Stored
    requires j < |addrs| && addrs[j] !in addrs[j + 1..]
    ensures var out := StoreAt(mem, tlb, peers, h, addrs, value, i).mem;
            InRam(out, addrs[j]) && ByteIn(out, addrs[j]) == ByteOf(value, i + j)
    decreases |addrs|
  {
    hide StoreByte, ByteOf, ByteIn, Reservations.NoteStore;
    var pa, rest, mem' := addrs[0], addrs[1..], StoreByte(mem, addrs[0], ByteOf(value, i));
    if j == 0 {
      StoreByteMeans(mem, pa, ByteOf(value, i), pa);
      BytesKept(mem', tlb, Reservations.NoteStore(peers, h, pa, 1), h, rest, value, i + 1, pa);
    } else {
      assert rest[j - 1] == addrs[j] && rest[j..] == addrs[j + 1..];
      BytesStored(mem', tlb, Reservations.NoteStore(peers, h, pa, 1), h, rest, value, i + 1, j - 1);
    }
  }

  // --- what the translations themselves write ---------------------------------------------------

  lemma AdTransitive(w: Word, x: Word, y: Word)
    requires AdGrows(w, x) && AdGrows(x, y)
    ensures AdGrows(w, y)
  {
    hide Bit, SetBit;
    AdPair(w);
    AdPair(SetA(w));
    AdPair(SetD(w));
  }

  lemma AdPair(w: Word)
    ensures SetA(SetA(w)) == SetA(w) && SetD(SetD(w)) == SetD(w) && SetA(SetD(w)) == SetD(SetA(w))
  {
    hide Bit, SetBit;
    BitOfSetBit(w, 6, 6);
    BitOfSetBit(w, 7, 7);
    SetBitSame(SetA(w), 6);
    SetBitSame(SetD(w), 7);
    SetBitCommutes(w, 6, 7);
  }

  lemma AdStepTransitive(a: Mem, b: Mem, c: Mem)
    requires AdStep(a, b) && AdStep(b, c)
    ensures AdStep(a, c)
  {
    hide AdGrows, Bit, SetBit;
    forall i | 0 <= i < |a| ensures AdGrows(a[i], c[i]) && (c[i] != a[i] ==> IsLeaf(a[i])) {
      AdTransitive(a[i], b[i], c[i]);
      AdKeeps(a[i], b[i]);
    }
  }

  /** With a coherent cache, the first pass writes nothing but accessed and dirty bits. */
  lemma {:induction false} PassOneWritesOnlyAd(mem: Mem, tlb: Tlb, satp: Satp, acc: Access, size: nat, i: nat)
    requires i <= size && Coherent(mem, tlb, satp)
    ensures AdStep(mem, PassOne(mem, tlb, satp, acc, size, i).mem)
    decreases size - i
  {
    hide Coherent, TlbTranslate, AdStep, WalkTranslate;
    if i < size {
      var c := TlbTranslate(mem, tlb, satp, ByteAt(acc, i));
      TranslateAgrees(mem, tlb, satp, ByteAt(acc, i));
      WalkTranslateIsAdStep(mem, satp, ByteAt(acc, i));
      if c.result.Ok? {
        PassOneWritesOnlyAd(c.mem, c.tlb, satp, acc, size, i + 1);
        AdStepTransitive(mem, c.mem, PassOne(mem, tlb, satp, acc, size, i).mem);
      }
    } else {
      AdStepReflexive(mem);
    }
  }

  lemma AdStepReflexive(mem: Mem)
    ensures AdStep(mem, mem)
  {
  }
}
