/** Split virtqueues in guest memory (`src/virtio/mod.rs`; section 2.6 of Virtio 1.1). */
module Virtqueue {
  import opened Bytes
  import opened Prelude

  const BASE: nat := 0x8000_0000
  const U64: nat := 0x1_0000_0000_0000_0000
  const MAX_CHAIN: nat := 256

  function Wrap(a: nat): nat { a % U64 }

  // --- guest memory ------------------------------------------------------------------------------

  predicate InRam(ram: seq<Byte>, addr: nat, n: nat) { BASE <= addr && addr - BASE + n <= |ram| }

  function Fetch(ram: seq<Byte>, addr: nat, n: nat): (r: seq<Byte>)
    requires InRam(ram, addr, n)
    ensures |r| == n
  {
    ram[addr - BASE..addr - BASE + n]
  }

  /** A little-endian integer, or 0 if the address is not RAM. */
  function ReadInt(ram: seq<Byte>, addr: nat, n: nat): nat {
    if InRam(ram, addr, n) then Le(Fetch(ram, addr, n)) else 0
  }

  /** A write that misses RAM does nothing. */
  function WriteAt(ram: seq<Byte>, addr: nat, data: seq<Byte>): (r: seq<Byte>)
    ensures |r| == |ram|
  {
    if InRam(ram, addr, |data|) then Patch(ram, addr - BASE, data) else ram
  }

  predicate Apart(a: nat, n: nat, b: nat, m: nat) { a + n <= b || b + m <= a }

  lemma WriteElsewhere(ram: seq<Byte>, addr: nat, data: seq<Byte>, a: nat, n: nat)
    requires InRam(ram, a, n) && Apart(addr, |data|, a, n)
    ensures Fetch(WriteAt(ram, addr, data), a, n) == Fetch(ram, a, n)
  {
  }

  lemma WriteHere(ram: seq<Byte>, addr: nat, data: seq<Byte>)
    requires InRam(ram, addr, |data|)
    ensures Fetch(WriteAt(ram, addr, data), addr, |data|) == data
  {
  }

  /** Two memories that agree on a region agree on every part of it. */
  lemma FetchInside(ram: seq<Byte>, ram': seq<Byte>, r: nat, len: nat, a: nat, n: nat)
    requires |ram| == |ram'| && InRam(ram, r, len) && Fetch(ram, r, len) == Fetch(ram', r, len)
    requires r <= a && a + n <= r + len
    ensures Fetch(ram, a, n) == Fetch(ram', a, n)
  {
    forall i | 0 <= i < n ensures Fetch(ram, a, n)[i] == Fetch(ram', a, n)[i] {
      assert Fetch(ram, a, n)[i] == Fetch(ram, r, len)[a - r + i];
      assert Fetch(ram', a, n)[i] == Fetch(ram', r, len)[a - r + i];
    }
  }

  // --- rings and chains ---------------------------------------------------------------------------

  datatype Queue = Queue(num: nat, ready: bool, desc: nat, avail: nat, used: nat, lastAvail: nat)

  datatype Segment = Segment(addr: nat, len: nat, deviceWrites: bool)

  predicate Ready(q: Queue) { q.ready && q.num != 0 }

  function AvailIdx(ram: seq<Byte>, q: Queue): nat { ReadInt(ram, Wrap(q.avail + 2), 2) }

  function AvailHead(ram: seq<Byte>, q: Queue, i: nat): nat
    requires q.num > 0
  {
    ReadInt(ram, Wrap(q.avail + 4 + i % q.num * 2), 2)
  }

  function UsedIdx(ram: seq<Byte>, q: Queue): nat { ReadInt(ram, Wrap(q.used + 2), 2) }

  function UsedId(ram: seq<Byte>, q: Queue, i: nat): nat
    requires q.num > 0
  {
    ReadInt(ram, Wrap(q.used + 4 + i % q.num * 8), 4)
  }

  function UsedLen(ram: seq<Byte>, q: Queue, i: nat): nat
    requires q.num > 0
  {
    ReadInt(ram, Wrap(q.used + 8 + i % q.num * 8), 4)
  }

  /** The buffer a descriptor names, whether the chain goes on, and where. */
  function Buffer(ram: seq<Byte>, q: Queue, index: nat): Segment {
    var d := q.desc + index * 16;
    Segment(ReadInt(ram, Wrap(d), 8), ReadInt(ram, Wrap(d + 8), 4), ReadInt(ram, Wrap(d + 12), 2) / 2 % 2 == 1)
  }

  predicate Continues(ram: seq<Byte>, q: Queue, index: nat) { ReadInt(ram, Wrap(q.desc + index * 16 + 12), 2) % 2 == 1 }

  function NextIndex(ram: seq<Byte>, q: Queue, index: nat): nat { ReadInt(ram, Wrap(q.desc + index * 16 + 14), 2) }

  /** The buffers of the chain starting at a descriptor, at most `fuel` of them. */
  function Chain(ram: seq<Byte>, q: Queue, index: nat, fuel: nat): seq<Segment>
    decreases fuel
  {
    if fuel == 0 || index >= q.num then []
    else
      [Buffer(ram, q, index)] +
      if Continues(ram, q, index) then Chain(ram, q, NextIndex(ram, q, index), fuel - 1) else []
  }

  function ChainAt(ram: seq<Byte>, q: Queue, head: nat): seq<Segment> { Chain(ram, q, head, MAX_CHAIN) }

  /** The entry is written before the index moves. */
  function PushedUsed(ram: seq<Byte>, q: Queue, head: nat, written: nat): (r: seq<Byte>)
    requires q.num > 0
    ensures |r| == |ram|
  {
    var i := UsedIdx(ram, q);
    var slot := q.used + 4 + i % q.num * 8;
    var ram1 := WriteAt(ram, Wrap(slot), LeBytes(head, 4));
    var ram2 := WriteAt(ram1, Wrap(slot + 4), LeBytes(written, 4));
    WriteAt(ram2, Wrap(q.used + 2), LeBytes((i + 1) % 0x1_0000, 2))
  }

  // --- a driver that keeps its rings in order ---------------------------------------------------

  /** The three tables lie in RAM, apart from one another; the size is a power of two. */
  predicate Laid(ram: seq<Byte>, q: Queue) {
    && q.ready && q.num in {1, 2, 4, 8, 16, 32, 64, 128, 256}
    && BASE + |ram| <= U64
    && InRam(ram, q.desc, 16 * q.num) && InRam(ram, q.avail, 4 + 2 * q.num) && InRam(ram, q.used, 4 + 8 * q.num)
    && Apart(q.desc, 16 * q.num, q.avail, 4 + 2 * q.num)
    && Apart(q.desc, 16 * q.num, q.used, 4 + 8 * q.num)
    && Apart(q.avail, 4 + 2 * q.num, q.used, 4 + 8 * q.num)
  }

  /** A range that touches none of the tables. */
  predicate OffRings(q: Queue, addr: nat, n: nat) {
    && Apart(addr, n, q.desc, 16 * q.num) && Apart(addr, n, q.avail, 4 + 2 * q.num)
    && Apart(addr, n, q.used, 4 + 8 * q.num)
  }

  /** The buffers the device may write are off the rings. */
  predicate Safe(q: Queue, segs: seq<Segment>) {
    forall i :: 0 <= i < |segs| && segs[i].deviceWrites ==> OffRings(q, segs[i].addr, segs[i].len)
  }

  /** Descriptors and available ring are untouched. */
  predicate DriverSideKept(ram: seq<Byte>, ram': seq<Byte>, q: Queue)
    requires Laid(ram, q)
  {
    && |ram| == |ram'|
    && Fetch(ram, q.desc, 16 * q.num) == Fetch(ram', q.desc, 16 * q.num)
    && Fetch(ram, q.avail, 4 + 2 * q.num) == Fetch(ram', q.avail, 4 + 2 * q.num)
  }

  predicate RingsKept(ram: seq<Byte>, ram': seq<Byte>, q: Queue)
    requires Laid(ram, q)
  {
    && DriverSideKept(ram, ram', q)
    && Fetch(ram, q.used, 4 + 8 * q.num) == Fetch(ram', q.used, 4 + 8 * q.num)
  }

  /** The available ring shows every published head from number `from` on. */
  ghost predicate AvailSide(ram: seq<Byte>, q: Queue, published: seq<nat>, from: nat)
    requires q.num > 0
  {
    && AvailIdx(ram, q) == |published| % 0x1_0000
    && forall k :: from <= k < |published| ==> AvailHead(ram, q, k) == published[k]
  }

  /** The used ring shows the completed heads, as many as it can hold. */
  ghost predicate UsedSide(ram: seq<Byte>, q: Queue, completed: seq<nat>)
    requires q.num > 0
  {
    && UsedIdx(ram, q) == |completed| % 0x1_0000
    && forall k :: 0 <= k < |completed| && |completed| - q.num <= k ==> UsedId(ram, q, k) == completed[k]
  }

  /** `published` are the heads the driver has made available since the queue was set up, and
      `completed` those the device has returned. The returned ones are a prefix of the published
      ones, both rings show it, and the device resumes exactly where it stopped. */
  ghost predicate Ring(ram: seq<Byte>, q: Queue, published: seq<nat>, completed: seq<nat>) {
    && Laid(ram, q)
    && completed <= published && |published| - |completed| <= q.num
    && (forall k :: 0 <= k < |published| ==> published[k] < 0x1_0000)
    && q.lastAvail == |completed| % 0x1_0000
    && AvailSide(ram, q, published, |completed|)
    && UsedSide(ram, q, completed)
  }

  lemma ReadKept(ram: seq<Byte>, ram': seq<Byte>, r: nat, len: nat, a: nat, n: nat)
    requires |ram| == |ram'| && InRam(ram, r, len) && Fetch(ram, r, len) == Fetch(ram', r, len)
    requires r <= a && a + n <= r + len && BASE + |ram| <= U64
    ensures ReadInt(ram, Wrap(a), n) == ReadInt(ram', Wrap(a), n)
  {
    if a < U64 {
      FetchInside(ram, ram', r, len, a, n);
    }
  }

  lemma AvailKept(ram: seq<Byte>, ram': seq<Byte>, q: Queue)
    requires Laid(ram, q) && DriverSideKept(ram, ram', q)
    ensures AvailIdx(ram, q) == AvailIdx(ram', q)
    ensures forall k: nat {:trigger AvailHead(ram', q, k)} :: AvailHead(ram, q, k) == AvailHead(ram', q, k)
  {
    hide Fetch, ReadInt, InRam, Wrap;
    ReadKept(ram, ram', q.avail, 4 + 2 * q.num, q.avail + 2, 2);
    forall k: nat ensures AvailHead(ram, q, k) == AvailHead(ram', q, k) {
      ReadKept(ram, ram', q.avail, 4 + 2 * q.num, q.avail + 4 + k % q.num * 2, 2);
    }
  }

  lemma {:induction false} ChainKept(ram: seq<Byte>, ram': seq<Byte>, q: Queue, index: nat, fuel: nat)
    requires Laid(ram, q) && DriverSideKept(ram, ram', q)
    ensures Chain(ram, q, index, fuel) == Chain(ram', q, index, fuel)
    decreases fuel
  {
    hide Fetch, ReadInt, InRam, Wrap;
    if fuel > 0 && index < q.num {
      var d := q.desc + index * 16;
      ReadKept(ram, ram', q.desc, 16 * q.num, d, 8);
      ReadKept(ram, ram', q.desc, 16 * q.num, d + 8, 4);
      ReadKept(ram, ram', q.desc, 16 * q.num, d + 12, 2);
      ReadKept(ram, ram', q.desc, 16 * q.num, d + 14, 2);
      ChainKept(ram, ram', q, NextIndex(ram, q, index), fuel - 1);
    }
  }

  // --- publishing a completion ---------------------------------------------------------------------

  lemma IndexOfSlot(k: nat, num: nat)
    requires num in {1, 2, 4, 8, 16, 32, 64, 128, 256}
    ensures k % 0x1_0000 % num == k % num
  {
    var t, r := k / 0x1_0000, k % 0x1_0000;
    if num == 256 { QuotientIs(k, 256, 256 * t + r / 256, r % 256); }
    else if num == 128 { QuotientIs(k, 128, 512 * t + r / 128, r % 128); }
    else if num == 64 { QuotientIs(k, 64, 1024 * t + r / 64, r % 64); }
    else if num == 32 { QuotientIs(k, 32, 2048 * t + r / 32, r % 32); }
    else if num == 16 { QuotientIs(k, 16, 4096 * t + r / 16, r % 16); }
    else if num == 8 { QuotientIs(k, 8, 8192 * t + r / 8, r % 8); }
    else if num == 4 { QuotientIs(k, 4, 16384 * t + r / 4, r % 4); }
    else if num == 2 { QuotientIs(k, 2, 32768 * t + r / 2, r % 2); }
  }

  lemma SlotsDiffer(k: nat, l: nat, num: nat)
    requires l < k < l + num
    ensures k % num != l % num
  {
    if k / num > l / num { OneTurn(num, k / num, l / num); } else { OneTurn(num, l / num + 1, k / num); }
  }

  lemma OneTurn(num: nat, a: nat, b: nat)
    requires a > b
    ensures num * a >= num * b + num
  {
    AtLeastOnce(num, a - b);
  }

  lemma ReadBack(ram: seq<Byte>, addr: nat, v: nat, n: nat)
    requires InRam(ram, addr, n) && v < Pow256(n)
    ensures ReadInt(WriteAt(ram, addr, LeBytes(v, n)), addr, n) == v
  {
    WriteHere(ram, addr, LeBytes(v, n));
    LeRoundTrip(v, n);
  }

  lemma ReadElsewhere(ram: seq<Byte>, addr: nat, v: nat, m: nat, a: nat, n: nat)
    requires InRam(ram, a, n) && Apart(addr, m, a, n)
    ensures ReadInt(WriteAt(ram, addr, LeBytes(v, m)), a, n) == ReadInt(ram, a, n)
  {
    WriteElsewhere(ram, addr, LeBytes(v, m), a, n);
  }

  lemma RegionElsewhere(ram: seq<Byte>, addr: nat, v: nat, m: nat, a: nat, n: nat)
    requires InRam(ram, a, n) && Apart(addr, m, a, n)
    ensures InRam(WriteAt(ram, addr, LeBytes(v, m)), a, n)
    ensures Fetch(WriteAt(ram, addr, LeBytes(v, m)), a, n) == Fetch(ram, a, n)
  {
    WriteElsewhere(ram, addr, LeBytes(v, m), a, n);
  }

  /** What the pushes need of the layout: the used ring lies in RAM. */
  predicate UsedLaid(ram: seq<Byte>, q: Queue) {
    q.num > 0 && InRam(ram, q.used, 4 + 8 * q.num) && BASE + |ram| <= U64
  }

  function Slot(q: Queue, i: nat): (r: nat)
    requires q.num > 0
    ensures q.used + 4 <= r && r + 8 <= q.used + 4 + 8 * q.num
  {
    q.used + 4 + i % q.num * 8
  }

  /** The ring accesses do not wrap around the address space. */
  lemma Unwrapped(ram: seq<Byte>, q: Queue, i: nat)
    requires UsedLaid(ram, q)
    ensures Wrap(Slot(q, i)) == Slot(q, i) && Wrap(Slot(q, i) + 4) == Slot(q, i) + 4 && Wrap(q.used + 2) == q.used + 2
    ensures InRam(ram, Slot(q, i), 4) && InRam(ram, Slot(q, i) + 4, 4) && InRam(ram, q.used + 2, 2)
  {
    hide Slot;
  }

  lemma SlotsApart(q: Queue, i: nat, k: nat)
    requires q.num > 0 && i % q.num != k % q.num
    ensures Slot(q, i) + 8 <= Slot(q, k) || Slot(q, k) + 8 <= Slot(q, i)
  {
    var a, b := i % q.num, k % q.num;
  }

  /** The memory after a push, without the wrapping. */
  lemma PushIs(ram: seq<Byte>, q: Queue, head: nat, written: nat)
    requires UsedLaid(ram, q)
    ensures var slot := Slot(q, UsedIdx(ram, q));
            var ram1 := WriteAt(ram, slot, LeBytes(head, 4));
            var ram2 := WriteAt(ram1, slot + 4, LeBytes(written, 4));
            PushedUsed(ram, q, head, written) == WriteAt(ram2, q.used + 2, LeBytes((UsedIdx(ram, q) + 1) % 0x1_0000, 2))
  {
    hide Wrap, WriteAt, LeBytes, UsedIdx;
    Unwrapped(ram, q, UsedIdx(ram, q));
  }

  lemma UsedIs(ram: seq<Byte>, q: Queue, i: nat)
    requires UsedLaid(ram, q)
    ensures UsedIdx(ram, q) == ReadInt(ram, q.used + 2, 2)
    ensures UsedId(ram, q, i) == ReadInt(ram, Slot(q, i), 4) && UsedLen(ram, q, i) == ReadInt(ram, Slot(q, i) + 4, 4)
  {
    hide Wrap, ReadInt;
    Unwrapped(ram, q, i);
  }

  /** Push writes only inside the used ring. */
  lemma PushOffDriver(ram: seq<Byte>, q: Queue, head: nat, written: nat, a: nat, n: nat)
    requires UsedLaid(ram, q) && InRam(ram, a, n) && Apart(q.used, 4 + 8 * q.num, a, n)
    ensures Fetch(PushedUsed(ram, q, head, written), a, n) == Fetch(ram, a, n)
  {
    hide Fetch, PushedUsed, UsedIdx, WriteAt, LeBytes, Slot;
    var i := UsedIdx(ram, q);
    var slot := Slot(q, i);
    var ram1 := WriteAt(ram, slot, LeBytes(head, 4));
    var ram2 := WriteAt(ram1, slot + 4, LeBytes(written, 4));
    PushIs(ram, q, head, written);
    RegionElsewhere(ram, slot, head, 4, a, n);
    RegionElsewhere(ram1, slot + 4, written, 4, a, n);
    RegionElsewhere(ram2, q.used + 2, (i + 1) % 0x1_0000, 2, a, n);
  }

  /** The new entry is the pair pushed, the index has moved by one, other entries stand. */
  lemma PushPublishes(ram: seq<Byte>, q: Queue, head: nat, written: nat)
    requires UsedLaid(ram, q) && head < 0x1_0000_0000 && written < 0x1_0000_0000
    ensures var i, r := UsedIdx(ram, q), PushedUsed(ram, q, head, written);
            UsedIdx(r, q) == (i + 1) % 0x1_0000 && UsedId(r, q, i) == head && UsedLen(r, q, i) == written
  {
    hide Fetch, PushedUsed, UsedIdx, UsedId, UsedLen, ReadInt, WriteAt, LeBytes, Slot, Wrap;
    var i := UsedIdx(ram, q);
    var slot := Slot(q, i);
    var ram1 := WriteAt(ram, slot, LeBytes(head, 4));
    var ram2 := WriteAt(ram1, slot + 4, LeBytes(written, 4));
    PushIs(ram, q, head, written);
    Unwrapped(ram, q, i);
    UsedIs(PushedUsed(ram, q, head, written), q, i);
    ReadBack(ram, slot, head, 4);
    ReadElsewhere(ram1, slot + 4, written, 4, slot, 4);
    ReadElsewhere(ram2, q.used + 2, (i + 1) % 0x1_0000, 2, slot, 4);
    ReadBack(ram1, slot + 4, written, 4);
    ReadElsewhere(ram2, q.used + 2, (i + 1) % 0x1_0000, 2, slot + 4, 4);
    ReadBack(ram2, q.used + 2, (i + 1) % 0x1_0000, 2);
  }

  lemma PushKeepsEntry(ram: seq<Byte>, q: Queue, head: nat, written: nat, k: nat)
    requires UsedLaid(ram, q) && k % q.num != UsedIdx(ram, q) % q.num
    ensures UsedId(PushedUsed(ram, q, head, written), q, k) == UsedId(ram, q, k)
  {
    hide Fetch, PushedUsed, UsedIdx, UsedId, UsedLen, ReadInt, WriteAt, LeBytes, Slot, Wrap;
    var i := UsedIdx(ram, q);
    var slot, other := Slot(q, i), Slot(q, k);
    var ram1 := WriteAt(ram, slot, LeBytes(head, 4));
    var ram2 := WriteAt(ram1, slot + 4, LeBytes(written, 4));
    SlotsApart(q, i, k);
    PushIs(ram, q, head, written);
    Unwrapped(ram, q, k);
    UsedIs(ram, q, k);
    UsedIs(PushedUsed(ram, q, head, written), q, k);
    ReadElsewhere(ram, slot, head, 4, other, 4);
    ReadElsewhere(ram1, slot + 4, written, 4, other, 4);
    ReadElsewhere(ram2, q.used + 2, (i + 1) % 0x1_0000, 2, other, 4);
  }

  lemma PushKeepsDriverSide(ram: seq<Byte>, q: Queue, head: nat, written: nat)
    requires Laid(ram, q)
    ensures Laid(PushedUsed(ram, q, head, written), q) && DriverSideKept(ram, PushedUsed(ram, q, head, written), q)
  {
    hide PushedUsed, Fetch;
    PushOffDriver(ram, q, head, written, q.desc, 16 * q.num);
    PushOffDriver(ram, q, head, written, q.avail, 4 + 2 * q.num);
  }

  lemma PushExtendsUsed(ram: seq<Byte>, q: Queue, completed: seq<nat>, head: nat, written: nat)
    requires Laid(ram, q) && UsedSide(ram, q, completed) && head < 0x1_0000 && written < 0x1_0000_0000
    ensures UsedSide(PushedUsed(ram, q, head, written), q, completed + [head])
  {
    hide PushedUsed, Fetch, ReadInt, UsedId, UsedIdx, InRam, Apart;
    var k, r := |completed|, PushedUsed(ram, q, head, written);
    LaidUsed(ram, q);
    PushPublishes(ram, q, head, written);
    IndexStep(k);
    IndexOfSlot(k, q.num);
    UsedIdOfIndex(r, q, k);
    forall l | 0 <= l < k + 1 && k + 1 - q.num <= l ensures UsedId(r, q, l) == (completed + [head])[l] {
      if l < k {
        SlotsDiffer(k, l, q.num);
        PushKeepsEntry(ram, q, head, written, l);
      }
    }
  }

  lemma LaidUsed(ram: seq<Byte>, q: Queue)
    requires Laid(ram, q)
    ensures UsedLaid(ram, q)
  {
  }

  lemma PushKeepsAvail(ram: seq<Byte>, mid: seq<Byte>, q: Queue, published: seq<nat>, from: nat, head: nat,
                       written: nat)
    requires Laid(ram, q) && RingsKept(ram, mid, q) && AvailSide(ram, q, published, from)
    ensures Laid(PushedUsed(mid, q, head, written), q)
    ensures AvailSide(PushedUsed(mid, q, head, written), q, published, from + 1)
  {
    hide PushedUsed, Fetch, InRam, Apart, AvailIdx, AvailHead, UsedIdx, UsedId;
    AvailKept(ram, mid, q);
    UsedSame(ram, mid, q);
    PushKeepsDriverSide(mid, q, head, written);
    AvailKept(mid, PushedUsed(mid, q, head, written), q);
  }

  /** One request: taken from the available ring, its buffers written, its completion pushed. The
      ring stays in order with one more chain completed. */
  lemma CompleteOne(ram: seq<Byte>, mid: seq<Byte>, q: Queue, published: seq<nat>, completed: seq<nat>, written: nat)
    requires Ring(ram, q, published, completed) && |completed| < |published|
    requires RingsKept(ram, mid, q) && written < 0x1_0000_0000
    ensures var head := published[|completed|];
            Ring(PushedUsed(mid, q, head, written), q.(lastAvail := (q.lastAvail + 1) % 0x1_0000),
                 published, completed + [head])
  {
    var head := published[|completed|];
    var q' := q.(lastAvail := (q.lastAvail + 1) % 0x1_0000);
    var done := completed + [head];
    hide PushedUsed, Laid, RingsKept, AvailSide, UsedSide;
    assert q.num > 0 by { LaidSize(ram, q); }
    UsedSideKept(ram, mid, q, completed);
    PushExtendsUsed(mid, q, completed, head, written);
    PushKeepsAvail(ram, mid, q, published, |completed|, head, written);
    SameRings(PushedUsed(mid, q, head, written), q, q', published, |completed| + 1, done);
    hide Ring;
    RingFrom(PushedUsed(mid, q, head, written), q, published, completed, q');
  }

  lemma RingFrom(r: seq<Byte>, q: Queue, published: seq<nat>, completed: seq<nat>, q': Queue)
    requires completed < published && |published| - |completed| <= q.num == q'.num
    requires q.lastAvail == |completed| % 0x1_0000
    requires q'.lastAvail == (q.lastAvail + 1) % 0x1_0000
    requires forall k :: 0 <= k < |published| ==> published[k] < 0x1_0000
    requires Laid(r, q') && AvailSide(r, q', published, |completed| + 1)
    requires UsedSide(r, q', completed + [published[|completed|]])
    ensures Ring(r, q', published, completed + [published[|completed|]])
  {
    hide Laid, AvailSide, UsedSide;
    IndexStep(|completed|);
    assert published[..|completed| + 1] == completed + [published[|completed|]];
  }

  lemma UsedSideKept(ram: seq<Byte>, mid: seq<Byte>, q: Queue, completed: seq<nat>)
    requires Laid(ram, q) && RingsKept(ram, mid, q) && UsedSide(ram, q, completed)
    ensures Laid(mid, q) && UsedSide(mid, q, completed)
  {
    hide Fetch, UsedId, UsedIdx;
    UsedSame(ram, mid, q);
  }

  lemma IndexStep(k: nat)
    ensures (k % 0x1_0000 + 1) % 0x1_0000 == (k + 1) % 0x1_0000
  {
  }

  lemma UsedIdOfIndex(r: seq<Byte>, q: Queue, k: nat)
    requires q.num in {1, 2, 4, 8, 16, 32, 64, 128, 256}
    ensures UsedId(r, q, k % 0x1_0000) == UsedId(r, q, k)
    ensures AvailHead(r, q, k % 0x1_0000) == AvailHead(r, q, k)
  {
    IndexOfSlot(k, q.num);
  }

  /** Nothing about the rings depends on how far the device has read. */
  lemma SameRings(r: seq<Byte>, q: Queue, q': Queue, published: seq<nat>, from: nat, completed: seq<nat>)
    requires q.num > 0 && q' == q.(lastAvail := q'.lastAvail)
    ensures Laid(r, q) ==> Laid(r, q')
    ensures AvailSide(r, q, published, from) ==> AvailSide(r, q', published, from)
    ensures UsedSide(r, q, completed) ==> UsedSide(r, q', completed)
  {
    hide ReadInt, Wrap;
    assert AvailIdx(r, q') == AvailIdx(r, q) && UsedIdx(r, q') == UsedIdx(r, q);
    assert forall k: nat {:trigger AvailHead(r, q', k)} :: AvailHead(r, q', k) == AvailHead(r, q, k);
    assert forall k: nat {:trigger UsedId(r, q', k)} :: UsedId(r, q', k) == UsedId(r, q, k);
  }

  lemma {:induction false} SameChain(r: seq<Byte>, q: Queue, q': Queue, index: nat, fuel: nat)
    requires q' == q.(lastAvail := q'.lastAvail)
    ensures Chain(r, q', index, fuel) == Chain(r, q, index, fuel)
    decreases fuel
  {
    hide ReadInt, Wrap;
    if fuel > 0 && index < q.num {
      SameChain(r, q, q', NextIndex(r, q, index), fuel - 1);
    }
  }

  /** The device sees exactly the chains published and not yet completed. */
  lemma Waiting(ram: seq<Byte>, q: Queue, published: seq<nat>, completed: seq<nat>)
    requires Ring(ram, q, published, completed)
    ensures q.lastAvail == AvailIdx(ram, q) <==> completed == published
    ensures |completed| < |published| ==> AvailHead(ram, q, q.lastAvail) == published[|completed|]
  {
    hide AvailHead, UsedId, Laid;
    assert q.num <= 256 by { LaidSize(ram, q); }
    if |completed| < |published| {
      LaidSize(ram, q);
      UsedIdOfIndex(ram, q, |completed|);
    }
  }

  lemma LaidSize(ram: seq<Byte>, q: Queue)
    requires Laid(ram, q)
    ensures q.num in {1, 2, 4, 8, 16, 32, 64, 128, 256}
  {
  }

  /** A driver that publishes more chains, without overrunning the ring and without touching what
      the device owns, keeps the rings in order. */
  lemma DriverKeepsRing(ram: seq<Byte>, ram': seq<Byte>, q: Queue, published: seq<nat>, more: seq<nat>,
                        completed: seq<nat>)
    requires Ring(ram, q, published, completed)
    requires |ram'| == |ram| && Fetch(ram', q.used, 4 + 8 * q.num) == Fetch(ram, q.used, 4 + 8 * q.num)
    requires |published| + |more| - |completed| <= q.num && forall k :: 0 <= k < |more| ==> more[k] < 0x1_0000
    requires AvailIdx(ram', q) == (|published| + |more|) % 0x1_0000
    requires forall k :: |completed| <= k < |published| ==> AvailHead(ram', q, k) == AvailHead(ram, q, k)
    requires forall k :: 0 <= k < |more| ==> AvailHead(ram', q, |published| + k) == more[k]
    ensures Ring(ram', q, published + more, completed)
  {
    hide Fetch, ReadInt, AvailHead, AvailIdx, UsedId, UsedIdx;
    UsedSame(ram, ram', q);
    forall k | |completed| <= k < |published + more| ensures AvailHead(ram', q, k) == (published + more)[k] {
      if k >= |published| { assert AvailHead(ram', q, |published| + (k - |published|)) == more[k - |published|]; }
    }
  }

  lemma UsedSame(ram: seq<Byte>, ram': seq<Byte>, q: Queue)
    requires Laid(ram, q) && |ram'| == |ram| && Fetch(ram', q.used, 4 + 8 * q.num) == Fetch(ram, q.used, 4 + 8 * q.num)
    ensures Laid(ram', q) && UsedIdx(ram, q) == UsedIdx(ram', q)
    ensures forall k: nat {:trigger UsedId(ram', q, k)} :: UsedId(ram, q, k) == UsedId(ram', q, k)
  {
    hide Fetch, ReadInt, Wrap;
    ReadKept(ram, ram', q.used, 4 + 8 * q.num, q.used + 2, 2);
    forall k: nat ensures UsedId(ram, q, k) == UsedId(ram', q, k) {
      ReadKept(ram, ram', q.used, 4 + 8 * q.num, q.used + 4 + k % q.num * 8, 4);
    }
  }
}
