/** What a block request means (`src/virtio/blk.rs`; section 5.2.6 of Virtio 1.1). */
module VirtioBlkSpec {
  import opened Bytes
  import opened SnapshotDisk
  import opened Virtqueue

  const U32: nat := 0x1_0000_0000

  const T_IN: nat := 0
  const T_OUT: nat := 1
  const T_FLUSH: nat := 4
  const T_GET_ID: nat := 8

  const S_OK: Byte := 0
  const S_IOERR: Byte := 1
  const S_UNSUPP: Byte := 2

  /** "riscv-emu-virtio", padded with NULs to twenty bytes. */
  const ID: seq<Byte> := [114, 105, 115, 99, 118, 45, 101, 109, 117, 45, 118, 105, 114, 116, 105, 111, 0, 0, 0, 0]

  // --- scatter and gather ----------------------------------------------------------------------

  function Total(segs: seq<Segment>): nat { if segs == [] then 0 else segs[0].len + Total(segs[1..]) }

  predicate SegInRam(ram: seq<Byte>, s: Segment) { s.len == 0 || InRam(ram, s.addr, s.len) }

  predicate AllInRam(ram: seq<Byte>, segs: seq<Segment>) {
    forall i :: 0 <= i < |segs| ==> SegInRam(ram, segs[i])
  }

  function Piece(ram: seq<Byte>, s: Segment): (r: seq<Byte>)
    requires SegInRam(ram, s)
    ensures |r| == s.len
  {
    if s.len == 0 then [] else Fetch(ram, s.addr, s.len)
  }

  /** The concatenated contents of the buffers. */
  function Gather(ram: seq<Byte>, segs: seq<Segment>): (r: seq<Byte>)
    requires AllInRam(ram, segs)
    ensures |r| == Total(segs)
  {
    if segs == [] then [] else Piece(ram, segs[0]) + Gather(ram, segs[1..])
  }

  function Place(ram: seq<Byte>, s: Segment, bytes: seq<Byte>): (r: seq<Byte>)
    requires |bytes| == s.len
    ensures |r| == |ram|
  {
    if s.len == 0 then ram else WriteAt(ram, s.addr, bytes)
  }

  /** Memory with the bytes laid out over the buffers, in order. */
  function Scatter(ram: seq<Byte>, segs: seq<Segment>, bytes: seq<Byte>): (r: seq<Byte>)
    requires |bytes| == Total(segs)
    ensures |r| == |ram|
    decreases |segs|
  {
    if segs == [] then ram
    else Scatter(Place(ram, segs[0], bytes[..segs[0].len]), segs[1..], bytes[segs[0].len..])
  }

  /** Buffers that share no byte. */
  predicate Disjoint(segs: seq<Segment>) {
    forall i, j :: 0 <= i < j < |segs| ==> Apart(segs[i].addr, segs[i].len, segs[j].addr, segs[j].len)
  }

  lemma {:induction false} ScatterElsewhere(ram: seq<Byte>, segs: seq<Segment>, bytes: seq<Byte>, a: nat, n: nat)
    requires |bytes| == Total(segs) && InRam(ram, a, n)
    requires forall i :: 0 <= i < |segs| ==> Apart(a, n, segs[i].addr, segs[i].len)
    ensures Fetch(Scatter(ram, segs, bytes), a, n) == Fetch(ram, a, n)
    decreases |segs|
  {
    hide Fetch, WriteAt;
    if segs != [] {
      var s := segs[0];
      if s.len > 0 { WriteElsewhere(ram, s.addr, bytes[..s.len], a, n); }
      ScatterElsewhere(Place(ram, s, bytes[..s.len]), segs[1..], bytes[s.len..], a, n);
    }
  }

  /** Gathering what was scattered over disjoint buffers in RAM gives the bytes back. */
  lemma {:induction false} GatherScatter(ram: seq<Byte>, segs: seq<Segment>, bytes: seq<Byte>)
    requires |bytes| == Total(segs) && AllInRam(ram, segs) && Disjoint(segs)
    ensures Gather(Scatter(ram, segs, bytes), segs) == bytes
    decreases |segs|
  {
    hide Fetch, WriteAt;
    if segs != [] {
      var s, rest := segs[0], segs[1..];
      var here, there := bytes[..s.len], bytes[s.len..];
      var ram1 := Place(ram, s, here);
      GatherScatter(ram1, rest, there);
      if s.len > 0 {
        WriteHere(ram, s.addr, here);
        ScatterElsewhere(ram1, rest, there, s.addr, s.len);
      }
      assert here + there == bytes;
    }
  }

  // --- how far a transfer gets -----------------------------------------------------------------

  /** Data moves in pieces of this size. */
  const CHUNK: nat := 0x1_0000

  /** The part of a buffer that is moved: the whole of it if it lies in RAM, and otherwise the whole
      chunks in front of the end of RAM. */
  function Reached(ram: seq<Byte>, s: Segment): (r: Segment)
    ensures SegInRam(ram, r) && r.len <= s.len && r.addr == s.addr && (SegInRam(ram, s) <==> r == s)
  {
    if SegInRam(ram, s) then s
    else if BASE <= s.addr <= BASE + |ram| then s.(len := (BASE + |ram| - s.addr) / CHUNK * CHUNK)
    else s.(len := 0)
  }

  /** The buffers a transfer moves: it stops at the first that runs out of RAM. */
  function Moved(ram: seq<Byte>, data: seq<Segment>): (r: seq<Segment>)
    ensures AllInRam(ram, r) && Total(r) <= Total(data)
    ensures AllInRam(ram, data) ==> r == data
  {
    if data == [] then []
    else if SegInRam(ram, data[0]) then [data[0]] + Moved(ram, data[1..])
    else [Reached(ram, data[0])]
  }

  /** The lengths of the buffers it moves whole. */
  function Complete(ram: seq<Byte>, data: seq<Segment>): (r: nat)
    ensures AllInRam(ram, data) ==> r == Total(data)
  {
    if data == [] || !SegInRam(ram, data[0]) then 0 else data[0].len + Complete(ram, data[1..])
  }

  function Outcome(ram: seq<Byte>, data: seq<Segment>): Byte { if AllInRam(ram, data) then S_OK else S_IOERR }

  // --- requests ----------------------------------------------------------------------------------

  /** `status` is the address of the status byte. */
  datatype Request = Malformed | Request(kind: nat, sector: nat, data: seq<Segment>, status: nat)

  /** A well-formed chain has a header the device can read in front and a status byte it may write
      at the back. */
  function Parse(ram: seq<Byte>, segs: seq<Segment>): Request {
    if |segs| < 2 then Malformed
    else
      var first, last := segs[0], segs[|segs| - 1];
      if first.deviceWrites || first.len < 16 || !last.deviceWrites || last.len < 1
         || !InRam(ram, first.addr, 16) then Malformed
      else
        var header := Fetch(ram, first.addr, 16);
        Request(Le(header[..4]), Le(header[8..]), segs[1..|segs| - 1], last.addr)
  }

  predicate Faces(data: seq<Segment>, deviceWrites: bool) {
    forall i :: 0 <= i < |data| ==> data[i].deviceWrites == deviceWrites
  }

  /** The transfer lies on the disk. */
  predicate OnDisk(size: nat, sector: nat, total: nat) { sector * SECTOR + total <= size }

  /** The source's comparisons, arranged so that nothing overflows, say the same. */
  lemma BoundsCheck(size: nat, sector: nat, total: nat)
    ensures !(sector > size / SECTOR || total > size || sector * SECTOR > size - total) <==> OnDisk(size, sector, total)
  {
  }

  ghost predicate Covered(segs: seq<Segment>, a: nat) {
    exists i :: 0 <= i < |segs| && segs[i].deviceWrites && segs[i].addr <= a < segs[i].addr + segs[i].len
  }

  /** Memory changed only inside the buffers the device may write. */
  ghost predicate Untouched(ram: seq<Byte>, ram': seq<Byte>, segs: seq<Segment>) {
    |ram| == |ram'| && forall i :: 0 <= i < |ram| && !Covered(segs, BASE + i) ==> ram'[i] == ram[i]
  }

  /** What a request leaves: guest memory, disk, status and bytes written, before the status byte. */
  datatype Effect = Effect(ram: seq<Byte>, disk: seq<Byte>, status: Byte, written: nat)

  /** A transfer moves data exactly when its buffers face the right way and it lies on the disk. Then
      the bytes at sector * 512 move, as far as the buffers lie in RAM, and it succeeds if they all do. */
  function Performed(ram: seq<Byte>, disk: seq<Byte>, kind: nat, sector: nat, data: seq<Segment>): (e: Effect)
    ensures |e.disk| == |disk|
  {
    var at, moved, refused := sector * SECTOR, Moved(ram, data), Effect(ram, disk, S_IOERR, 0);
    if kind == T_IN then
      if Faces(data, true) && OnDisk(|disk|, sector, Total(data)) then
        Effect(Scatter(ram, moved, disk[at..at + Total(moved)]), disk, Outcome(ram, data), Complete(ram, data) % U32)
      else refused
    else if kind == T_OUT then
      if Faces(data, false) && OnDisk(|disk|, sector, Total(data)) then
        Effect(ram, Patch(disk, at, Gather(ram, moved)), Outcome(ram, data), 0)
      else refused
    else if kind == T_FLUSH then Effect(ram, disk, S_OK, 0)
    else if kind == T_GET_ID then
      if data != [] && data[0].deviceWrites && InRam(ram, data[0].addr, IdLen(data[0])) then
        Effect(WriteAt(ram, data[0].addr, ID[..IdLen(data[0])]), disk, S_OK, IdLen(data[0]))
      else refused
    else Effect(ram, disk, S_UNSUPP, 0)
  }

  /** A chain handled: guest memory, disk and reported length before and after. */
  ghost predicate Handled(ram: seq<Byte>, disk: seq<Byte>, segs: seq<Segment>,
                          ram': seq<Byte>, disk': seq<Byte>, written: nat)
  {
    && Untouched(ram, ram', segs)
    && match Parse(ram, segs)
       case Malformed => ram' == ram && disk' == disk && written == 0
       case Request(kind, sector, data, status) =>
         var e := Performed(ram, disk, kind, sector, data);
         ram' == WriteAt(e.ram, status, [e.status]) && disk' == e.disk && written == (e.written + 1) % U32
  }

  function IdLen(s: Segment): (n: nat)
    ensures n <= |ID|
  {
    if s.len <= |ID| then s.len else |ID|
  }

  /** A read fills the buffers, as far as they lie in RAM, with the disk's bytes. */
  lemma ReadDelivers(ram: seq<Byte>, disk: seq<Byte>, segs: seq<Segment>, ram': seq<Byte>, disk': seq<Byte>,
                     written: nat)
    requires Handled(ram, disk, segs, ram', disk', written) && Parse(ram, segs).Request?
    requires Parse(ram, segs).kind == T_IN
    requires var p := Parse(ram, segs);
             Faces(p.data, true) && OnDisk(|disk|, p.sector, Total(p.data)) && Disjoint(segs[1..])
    ensures |ram'| == |ram|
    ensures var p := Parse(ram, segs);
            var moved, at := Moved(ram, p.data), p.sector * SECTOR;
            AllInRam(ram', moved) && Gather(ram', moved) == disk[at..at + Total(moved)]
  {
    hide WriteAt, Untouched, Scatter, Gather, Total, Patch, Apart, Moved, Complete, AllInRam, Disjoint, Faces;
    hide Parse, Outcome, Performed;
    var p := Parse(ram, segs);
    Parsed(ram, segs);
    PerformedRead(ram, disk, p.sector, p.data);
    DataApart(segs);
    ReadFills(ram, disk, p.sector * SECTOR, p.data, p.status, Outcome(ram, p.data));
  }

  lemma PerformedRead(ram: seq<Byte>, disk: seq<Byte>, sector: nat, data: seq<Segment>)
    requires Faces(data, true) && OnDisk(|disk|, sector, Total(data))
    ensures var at, moved := sector * SECTOR, Moved(ram, data);
            Performed(ram, disk, T_IN, sector, data) ==
            Effect(Scatter(ram, moved, disk[at..at + Total(moved)]), disk,
                   Outcome(ram, data), Complete(ram, data) % U32)
  {
    hide WriteAt, Scatter, Gather, Total, Patch, Moved, Complete, AllInRam, Outcome;
  }

  lemma Parsed(ram: seq<Byte>, segs: seq<Segment>)
    requires Parse(ram, segs).Request?
    ensures |segs| >= 2 && segs[|segs| - 1].len >= 1
    ensures Parse(ram, segs).data == segs[1..|segs| - 1] && Parse(ram, segs).status == segs[|segs| - 1].addr
  {
  }

  lemma ReadFills(ram: seq<Byte>, disk: seq<Byte>, at: nat, data: seq<Segment>, status: nat, v: Byte)
    requires at + Total(data) <= |disk| && Disjoint(data)
    requires forall i :: 0 <= i < |data| ==> Apart(data[i].addr, data[i].len, status, 1)
    ensures var moved := Moved(ram, data);
            var bytes := disk[at..at + Total(moved)];
            var ram' := WriteAt(Scatter(ram, moved, bytes), status, [v]);
            |ram'| == |ram| && AllInRam(ram', moved) && Gather(ram', moved) == bytes
  {
    hide Fetch, WriteAt, Scatter, Gather, Total, Apart, Moved, SegInRam;
    var moved := Moved(ram, data);
    var bytes := disk[at..at + Total(moved)];
    MovedApart(ram, data, status, 1);
    GatherScatter(ram, moved, bytes);
    SameRam(ram, Scatter(ram, moved, bytes), moved);
    GatherElsewhere(Scatter(ram, moved, bytes), moved, status, v);
    SameRam(ram, WriteAt(Scatter(ram, moved, bytes), status, [v]), moved);
  }

  /** Whether buffers lie in RAM depends only on how much RAM there is. */
  lemma SameRam(ram: seq<Byte>, ram': seq<Byte>, segs: seq<Segment>)
    requires |ram| == |ram'| && AllInRam(ram, segs)
    ensures AllInRam(ram', segs)
  {
    forall i | 0 <= i < |segs| ensures SegInRam(ram', segs[i]) { assert SegInRam(ram, segs[i]); }
  }

  /** The data buffers of a chain share no byte with one another or with the status byte. */
  lemma DataApart(segs: seq<Segment>)
    requires |segs| >= 2 && Disjoint(segs[1..]) && segs[|segs| - 1].len >= 1
    ensures var data, last := segs[1..|segs| - 1], segs[|segs| - 1];
            Disjoint(data) && forall i :: 0 <= i < |data| ==> Apart(data[i].addr, data[i].len, last.addr, 1)
  {
    hide Apart;
    var data, last := segs[1..|segs| - 1], segs[|segs| - 1];
    forall i, j | 0 <= i < j < |data| ensures Apart(data[i].addr, data[i].len, data[j].addr, data[j].len) {
      assert data[i] == segs[1..][i] && data[j] == segs[1..][j];
    }
    forall i | 0 <= i < |data| ensures Apart(data[i].addr, data[i].len, last.addr, 1) {
      assert data[i] == segs[1..][i] && segs[1..][|segs| - 2] == last;
      ApartFromFirst(data[i], last);
    }
  }

  lemma {:induction false} MovedInside(ram: seq<Byte>, data: seq<Segment>)
    ensures var moved := Moved(ram, data);
            |moved| <= |data| &&
            forall i :: 0 <= i < |moved| ==> moved[i].addr == data[i].addr && moved[i].len <= data[i].len
  {
    if data != [] { MovedInside(ram, data[1..]); }
  }

  lemma MovedApart(ram: seq<Byte>, data: seq<Segment>, a: nat, n: nat)
    requires Disjoint(data) && forall i :: 0 <= i < |data| ==> Apart(data[i].addr, data[i].len, a, n)
    ensures var moved := Moved(ram, data);
            Disjoint(moved) && forall i :: 0 <= i < |moved| ==> Apart(moved[i].addr, moved[i].len, a, n)
  {
    hide Moved;
    MovedInside(ram, data);
  }

  lemma ApartFromFirst(s: Segment, last: Segment)
    requires Apart(s.addr, s.len, last.addr, last.len) && last.len >= 1
    ensures Apart(s.addr, s.len, last.addr, 1)
  {
  }

  lemma {:induction false} GatherElsewhere(ram: seq<Byte>, segs: seq<Segment>, a: nat, v: Byte)
    requires AllInRam(ram, segs)
    requires forall i :: 0 <= i < |segs| ==> Apart(segs[i].addr, segs[i].len, a, 1)
    ensures Gather(WriteAt(ram, a, [v]), segs) == Gather(ram, segs)
  {
    hide Fetch, WriteAt;
    if segs != [] {
      if segs[0].len > 0 { WriteElsewhere(ram, a, [v], segs[0].addr, segs[0].len); }
      GatherElsewhere(ram, segs[1..], a, v);
    }
  }

  /** Buffers off the rings leave the rings alone. */
  lemma UntouchedRings(ram: seq<Byte>, ram': seq<Byte>, q: Queue, segs: seq<Segment>)
    requires Laid(ram, q) && Untouched(ram, ram', segs) && Safe(q, segs)
    ensures RingsKept(ram, ram', q)
  {
    hide Fetch, Untouched;
    UntouchedRegion(ram, ram', q.desc, 16 * q.num, segs);
    UntouchedRegion(ram, ram', q.avail, 4 + 2 * q.num, segs);
    UntouchedRegion(ram, ram', q.used, 4 + 8 * q.num, segs);
  }

  lemma UntouchedRegion(ram: seq<Byte>, ram': seq<Byte>, a: nat, n: nat, segs: seq<Segment>)
    requires InRam(ram, a, n) && Untouched(ram, ram', segs)
    requires forall i :: 0 <= i < |segs| && segs[i].deviceWrites ==> Apart(segs[i].addr, segs[i].len, a, n)
    ensures |ram'| == |ram| && Fetch(ram, a, n) == Fetch(ram', a, n)
  {
    forall i | 0 <= i < n ensures Fetch(ram, a, n)[i] == Fetch(ram', a, n)[i] {
      assert !Covered(segs, BASE + (a - BASE + i));
    }
  }
}
