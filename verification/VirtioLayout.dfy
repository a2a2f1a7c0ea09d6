/** The virtqueue tables and block requests as bytes in guest memory: where each field is, and what each
    request does, told without the functions that read and perform them (sections 2.6 and 5.2.6 of
    Virtio 1.1). */
module VirtioLayout {
  import opened Bytes
  import opened SnapshotDisk
  import opened Virtqueue
  import opened VirtioBlkSpec

  // --- little-endian fields ------------------------------------------------------------------------

  function U16At(ram: seq<Byte>, a: nat): nat
    requires InRam(ram, a, 2)
  {
    ram[a - BASE] as int + 256 * ram[a + 1 - BASE] as int
  }

  function U32At(ram: seq<Byte>, a: nat): nat
    requires InRam(ram, a, 4)
  {
    U16At(ram, a) + 0x1_0000 * U16At(ram, a + 2)
  }

  function U64At(ram: seq<Byte>, a: nat): nat
    requires InRam(ram, a, 8)
  {
    U32At(ram, a) + 0x1_0000_0000 * U32At(ram, a + 4)
  }

  /** Addresses wrap at 2^64. */
  lemma WrapMeans(a: nat)
    ensures a < 0x1_0000_0000_0000_0000 ==> Wrap(a) == a
    ensures 0x1_0000_0000_0000_0000 <= a < 0x2_0000_0000_0000_0000 ==> Wrap(a) == a - 0x1_0000_0000_0000_0000
  {
  }

  lemma {:induction false} LeJoin(x: seq<Byte>, y: seq<Byte>)
    ensures Le(x + y) == Le(x) + Pow256(|x|) * Le(y)
  {
    if x == [] {
      assert x + y == y;
    } else {
      LeJoin(x[1..], y);
      assert (x + y)[1..] == x[1..] + y;
      var p, l, t := Pow256(|x| - 1), Le(y), Le(x[1..]);
      assert Le(x + y) == x[0] as int + 256 * (t + p * l) && Le(x) == x[0] as int + 256 * t && Pow256(|x|) == 256 * p;
      hide Le, Pow256;
      Associate(p, l);
    }
  }

  lemma Associate(p: nat, l: nat)
    ensures 256 * (p * l) == 256 * p * l
  {
  }

  lemma Le16(s: seq<Byte>)
    requires |s| == 2
    ensures Le(s) == s[0] as int + 256 * s[1] as int
  {
    var t := s[1..];
    assert Le(s) == s[0] as int + 256 * Le(t) && Le(t) == t[0] as int + 256 * Le(t[1..]) && t[1..] == [];
  }

  lemma Pow256s()
    ensures Pow256(2) == 0x1_0000 && Pow256(4) == 0x1_0000_0000
  {
  }

  lemma FetchSplit(ram: seq<Byte>, a: nat, n: nat, m: nat)
    requires InRam(ram, a, n + m)
    ensures Fetch(ram, a, n + m) == Fetch(ram, a, n) + Fetch(ram, a + n, m)
  {
  }

  /** A field that lies in RAM is read as its bytes say. */
  lemma FieldRead(ram: seq<Byte>, a: nat)
    requires BASE + |ram| <= U64
    ensures InRam(ram, a, 2) ==> ReadInt(ram, Wrap(a), 2) == U16At(ram, a)
    ensures InRam(ram, a, 4) ==> ReadInt(ram, Wrap(a), 4) == U32At(ram, a)
    ensures InRam(ram, a, 8) ==> ReadInt(ram, Wrap(a), 8) == U64At(ram, a)
  {
    if InRam(ram, a, 2) { Wide2(ram, a); }
    if InRam(ram, a, 4) { Wide4(ram, a); }
    if InRam(ram, a, 8) { Wide8(ram, a); }
  }

  lemma Wide2(ram: seq<Byte>, a: nat)
    requires InRam(ram, a, 2)
    ensures Le(Fetch(ram, a, 2)) == U16At(ram, a)
  {
    Le16(Fetch(ram, a, 2));
  }

  lemma Wide4(ram: seq<Byte>, a: nat)
    requires InRam(ram, a, 4)
    ensures Le(Fetch(ram, a, 4)) == U32At(ram, a)
  {
    hide Le, Fetch, Pow256;
    FetchSplit(ram, a, 2, 2);
    LeJoin(Fetch(ram, a, 2), Fetch(ram, a + 2, 2));
    Pow256s();
    Wide2(ram, a);
    Wide2(ram, a + 2);
  }

  lemma Wide8(ram: seq<Byte>, a: nat)
    requires InRam(ram, a, 8)
    ensures Le(Fetch(ram, a, 8)) == U64At(ram, a)
  {
    hide Le, Fetch, Pow256;
    FetchSplit(ram, a, 4, 4);
    LeJoin(Fetch(ram, a, 4), Fetch(ram, a + 4, 4));
    Pow256s();
    Wide4(ram, a);
    Wide4(ram, a + 4);
  }

  // --- the tables -----------------------------------------------------------------------------------

  /** A descriptor is sixteen bytes: address, length, flags (1 goes on, 2 the device writes), next. */
  lemma DescriptorLayout(ram: seq<Byte>, q: Queue, index: nat)
    requires Laid(ram, q) && index < q.num
    ensures var d := q.desc + 16 * index;
            && InRam(ram, d, 16)
            && Buffer(ram, q, index) == Segment(U64At(ram, d), U32At(ram, d + 8), U16At(ram, d + 12) / 2 % 2 == 1)
            && (Continues(ram, q, index) <==> U16At(ram, d + 12) % 2 == 1)
            && NextIndex(ram, q, index) == U16At(ram, d + 14)
  {
    hide ReadInt, U64At, U32At, U16At, Wrap;
    var d := q.desc + 16 * index;
    FieldRead(ram, d);
    FieldRead(ram, d + 8);
    FieldRead(ram, d + 12);
    FieldRead(ram, d + 14);
  }

  /** The available ring is flags, index and two-byte heads; the used ring flags, index and pairs of
      four-byte head and length. */
  lemma RingLayout(ram: seq<Byte>, q: Queue, i: nat)
    requires Laid(ram, q)
    ensures var a, u := q.avail + 4 + 2 * (i % q.num), q.used + 4 + 8 * (i % q.num);
            && InRam(ram, a, 2) && InRam(ram, u, 8)
            && AvailIdx(ram, q) == U16At(ram, q.avail + 2) && AvailHead(ram, q, i) == U16At(ram, a)
            && UsedIdx(ram, q) == U16At(ram, q.used + 2)
            && UsedId(ram, q, i) == U32At(ram, u) && UsedLen(ram, q, i) == U32At(ram, u + 4)
  {
    hide ReadInt, U32At, U16At, Wrap;
    var k := i % q.num;
    FieldRead(ram, q.avail + 2);
    FieldRead(ram, q.avail + 4 + 2 * k);
    FieldRead(ram, q.used + 2);
    FieldRead(ram, q.used + 4 + 8 * k);
    FieldRead(ram, q.used + 8 + 8 * k);
  }

  /** A chain is the buffers of descriptors in the table, from the head on, each naming the next, up to
      one that does not go on, or goes off the table, or the limit. */
  lemma {:induction false} ChainIs(ram: seq<Byte>, q: Queue, head: nat, limit: nat) returns (path: seq<nat>)
    ensures var c := Chain(ram, q, head, limit);
            && |path| == |c| <= limit
            && (forall k :: 0 <= k < |c| ==> path[k] < q.num && c[k] == Buffer(ram, q, path[k]))
            && (path != [] ==> path[0] == head)
            && forall k :: 0 <= k < |c| - 1 ==> Continues(ram, q, path[k]) && path[k + 1] == NextIndex(ram, q, path[k])
    ensures path == [] ==> limit == 0 || head >= q.num
    ensures path != [] && |path| < limit ==>
      var last := path[|path| - 1]; !Continues(ram, q, last) || NextIndex(ram, q, last) >= q.num
    decreases limit
  {
    hide Buffer, Continues, NextIndex;
    path := [];
    if limit > 0 && head < q.num {
      var rest: seq<nat> := [];
      if Continues(ram, q, head) { rest := ChainIs(ram, q, NextIndex(ram, q, head), limit - 1); }
      path := [head] + rest;
    }
  }

  /** The device's limit is 256 buffers. */
  lemma ChainLimit(ram: seq<Byte>, q: Queue, head: nat)
    ensures ChainAt(ram, q, head) == Chain(ram, q, head, 256)
  {
  }

  // --- requests -------------------------------------------------------------------------------------

  /** A request begins with sixteen bytes the device may read (four of kind, four reserved, eight of
      sector) and ends with a byte it may write; anything else is malformed. */
  lemma ParseMeans(ram: seq<Byte>, segs: seq<Segment>)
    ensures var formed := |segs| >= 2 && !segs[0].deviceWrites && segs[0].len >= 16 && InRam(ram, segs[0].addr, 16)
                          && segs[|segs| - 1].deviceWrites && segs[|segs| - 1].len >= 1;
            Parse(ram, segs) ==
            if formed then Request(U32At(ram, segs[0].addr), U64At(ram, segs[0].addr + 8), segs[1..|segs| - 1],
                                   segs[|segs| - 1].addr)
            else Malformed
  {
    hide Le, U64At, U32At;
    if |segs| >= 2 && InRam(ram, segs[0].addr, 16) {
      var a := segs[0].addr;
      assert Fetch(ram, a, 16)[..4] == Fetch(ram, a, 4) && Fetch(ram, a, 16)[8..] == Fetch(ram, a + 8, 8);
      Wide4(ram, a);
      Wide8(ram, a + 8);
    }
  }

  /** A transfer moves the buffers in front of the first that is not all in RAM, and of that one the
      whole chunks of 65536 bytes in front of the end of RAM. */
  lemma {:induction false} MovedMeans(ram: seq<Byte>, data: seq<Segment>, k: nat)
    requires k <= |data| && AllInRam(ram, data[..k]) && (k < |data| ==> !SegInRam(ram, data[k]))
    ensures Complete(ram, data) == Total(data[..k])
    ensures Moved(ram, data) == data[..k] + if k < |data| then [Reached(ram, data[k])] else []
  {
    hide SegInRam, Reached;
    if k > 0 {
      assert data[..k][0] == data[0] && data[..k][1..] == data[1..][..k - 1];
      var rest := data[1..][..k - 1];
      forall i | 0 <= i < |rest| ensures SegInRam(ram, rest[i]) { assert rest[i] == data[..k][i + 1]; }
      MovedMeans(ram, data[1..], k - 1);
    } else {
      assert data[..0] == [];
    }
  }

  lemma ReachedMeans(ram: seq<Byte>, s: Segment)
    requires !SegInRam(ram, s)
    ensures var r, end := Reached(ram, s), BASE + |ram|;
            && r.addr == s.addr && r.deviceWrites == s.deviceWrites && r.len % 65536 == 0
            && if BASE <= s.addr <= end then s.addr + r.len <= end < s.addr + r.len + 65536 else r.len == 0
  {
  }

  /** Memory as it was but for one byte, if that is RAM. */
  ghost predicate OneByte(ram: seq<Byte>, ram': seq<Byte>, a: nat, v: Byte) {
    && |ram'| == |ram|
    && forall i :: 0 <= i < |ram| ==> ram'[i] == if BASE + i == a then v else ram[i]
  }

  lemma StatusOnly(ram: seq<Byte>, a: nat, v: Byte)
    ensures OneByte(ram, WriteAt(ram, a, [v]), a, v)
  {
  }

  /** A write puts the bytes of its buffers, as far as they lie in RAM, on the disk at 512 times its
      sector, and changes nothing else but the status byte: 0 if all of them did, 1 if not. */
  lemma WriteDelivers(ram: seq<Byte>, disk: seq<Byte>, segs: seq<Segment>, ram': seq<Byte>, disk': seq<Byte>,
                      written: nat)
    requires Handled(ram, disk, segs, ram', disk', written) && Parse(ram, segs).Request? && Parse(ram, segs).kind == 1
    requires var p := Parse(ram, segs); Faces(p.data, false) && p.sector * 512 + Total(p.data) <= |disk|
    ensures var p := Parse(ram, segs);
            var bytes, at := Gather(ram, Moved(ram, p.data)), p.sector * 512;
            && |disk'| == |disk|
            && forall i :: 0 <= i < |disk| ==> disk'[i] == if at <= i < at + |bytes| then bytes[i - at] else disk[i]
    ensures written == 1
    ensures var p := Parse(ram, segs); OneByte(ram, ram', p.status, if AllInRam(ram, p.data) then 0 else 1)
  {
    hide WriteAt, Untouched, Scatter, Gather, Total, Moved, Complete, AllInRam, Parse, Faces, ID, IdLen;
    var p := Parse(ram, segs);
    StatusOnly(ram, p.status, if AllInRam(ram, p.data) then 0 else 1);
  }

  /** A read changes nothing on the disk. It answers 0 if all its buffers lie in RAM and 1 if not, and
      reports the lengths of those it filled whole and one for the status byte. */
  lemma ReadReports(ram: seq<Byte>, disk: seq<Byte>, segs: seq<Segment>, ram': seq<Byte>, disk': seq<Byte>,
                    written: nat)
    requires Handled(ram, disk, segs, ram', disk', written) && Parse(ram, segs).Request? && Parse(ram, segs).kind == 0
    requires var p := Parse(ram, segs); Faces(p.data, true) && p.sector * 512 + Total(p.data) <= |disk|
    ensures disk' == disk && written == (Complete(ram, Parse(ram, segs).data) + 1) % 0x1_0000_0000
    ensures var p := Parse(ram, segs);
            InRam(ram', p.status, 1) ==> ram'[p.status - BASE] == if AllInRam(ram, p.data) then 0 else 1
  {
    hide Untouched, Scatter, Gather, Total, Moved, Complete, AllInRam, Parse, Faces;
    PerformedRead(ram, disk, Parse(ram, segs).sector, Parse(ram, segs).data);
  }

  /** A transfer that faces the wrong way or leaves the disk moves nothing and answers 1. A flush (4)
      answers 0. Identification (8) puts the name in the first buffer. Any other kind answers 2. */
  lemma OtherRequests(ram: seq<Byte>, disk: seq<Byte>, segs: seq<Segment>, ram': seq<Byte>, disk': seq<Byte>,
                      written: nat)
    requires Handled(ram, disk, segs, ram', disk', written) && Parse(ram, segs).Request?
    ensures var p := Parse(ram, segs);
            var misfit := !Faces(p.data, p.kind == 0) || p.sector * 512 + Total(p.data) > |disk|;
            && (p.kind <= 1 && misfit ==> OneByte(ram, ram', p.status, 1) && disk' == disk && written == 1)
            && (p.kind == 4 ==> OneByte(ram, ram', p.status, 0) && disk' == disk && written == 1)
            && (p.kind !in {0, 1, 4, 8} ==> OneByte(ram, ram', p.status, 2) && disk' == disk && written == 1)
            && (p.kind == 8 ==> disk' == disk)
  {
    hide WriteAt, Untouched, Scatter, Gather, Total, Moved, Complete, AllInRam, Parse, Faces;
    var p := Parse(ram, segs);
    StatusOnly(ram, p.status, 0);
    StatusOnly(ram, p.status, 1);
    StatusOnly(ram, p.status, 2);
  }

  /** Identification puts "riscv-emu-virtio" and four NULs in the first buffer, as much as it holds. */
  lemma Identifies(ram: seq<Byte>, disk: seq<Byte>, data: seq<Segment>, sector: nat)
    ensures var e := Performed(ram, disk, 8, sector, data);
            var n := if data == [] then 0 else if data[0].len < 20 then data[0].len else 20;
            if data != [] && data[0].deviceWrites && InRam(ram, data[0].addr, n)
            then e.status == 0 && e.written == n && HoldsName(ram, e.ram, data[0].addr, n)
            else e.status == 1 && e.written == 0 && e.ram == ram
  {
    hide Scatter, Gather, Total, Moved, Complete, AllInRam, Faces, HoldsName, WriteAt;
    if data != [] && InRam(ram, data[0].addr, IdLen(data[0])) { NameWritten(ram, data[0].addr, IdLen(data[0])); }
  }

  /** Memory as it was but for the first n bytes of the name at an address. */
  ghost predicate HoldsName(ram: seq<Byte>, ram': seq<Byte>, a: nat, n: nat)
    requires n <= 20
  {
    && |ram'| == |ram|
    && forall i :: 0 <= i < |ram| ==> ram'[i] == if a <= BASE + i < a + n then NameByte(BASE + i - a) else ram[i]
  }

  lemma NameWritten(ram: seq<Byte>, a: nat, n: nat)
    requires n <= 20 && InRam(ram, a, n)
    ensures HoldsName(ram, WriteAt(ram, a, ID[..n]), a, n)
  {
    hide NameByte;
    forall k | 0 <= k < 20 ensures ID[k] == NameByte(k) { NameAt(k); }
  }

  lemma NameAt(k: nat)
    requires k < 20
    ensures ID[k] == NameByte(k)
  {
  }

  function NameByte(i: nat): Byte
    requires i < 20
  {
    if i < 16 then "riscv-emu-virtio"[i] as int % 256 else 0
  }
}
