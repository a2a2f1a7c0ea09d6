/** The virtio transport and the block device behind it, as they run (`src/virtio/mod.rs`,
    `src/virtio/blk.rs`). */
module VirtioBlk {
  import opened Bytes
  import opened Prelude
  import opened Virtqueue
  import opened VirtioBlkSpec
  import opened SnapshotDisk

  const MAX_REQUESTS: nat := 8
  const MAX_BYTES: nat := 0x10_0000

  datatype Popped = Popped(head: nat, segs: seq<Segment>)

  /** The transport of a device with one queue. */
  class Core {
    var ram: seq<Byte>
    var q: Queue
    var interrupt: bool

    constructor (ram: seq<Byte>, q: Queue)
      ensures this.ram == ram && this.q == q && !interrupt
    {
      this.ram, this.q, interrupt := ram, q, false;
    }

    method PopChain() returns (r: Option<Popped>)
      modifies `q
      ensures r.None? <==> !Ready(old(q)) || old(q).lastAvail == AvailIdx(ram, old(q))
      ensures r.None? ==> q == old(q)
      ensures r.Some? ==>
        && q == old(q).(lastAvail := (old(q).lastAvail + 1) % 0x1_0000)
        && r.value.head == AvailHead(ram, old(q), old(q).lastAvail)
        && r.value.segs == ChainAt(ram, old(q), r.value.head)
    {
      hide ReadInt, Wrap, Chain;
      if !Ready(q) { return None; }
      var q0 := q;
      if q0.lastAvail == ReadInt(ram, Wrap(q0.avail + 2), 2) { return None; }
      var head := ReadInt(ram, Wrap(q0.avail + 4 + q0.lastAvail % q0.num * 2), 2);
      q := q0.(lastAvail := (q0.lastAvail + 1) % 0x1_0000);
      var segments := Walk(q0, head, MAX_CHAIN);
      return Some(Popped(head, segments));
    }

    /** The buffers of a chain, following `next` while a descriptor says so. */
    method Walk(q0: Queue, head: nat, limit: nat) returns (segments: seq<Segment>)
      ensures segments == Chain(ram, q0, head, limit)
    {
      hide Buffer, Continues, NextIndex, Chain;
      segments := [];
      var index: nat := head;
      for i := 0 to limit
        invariant segments + Chain(ram, q0, index, limit - i) == Chain(ram, q0, head, limit)
      {
        if index >= q0.num {
          ChainEnds(ram, q0, index, limit - i);
          return;
        }
        var s := Buffer(ram, q0, index);
        ChainStep(ram, q0, index, limit - i, segments);
        segments := segments + [s];
        if !Continues(ram, q0, index) { return; }
        index := NextIndex(ram, q0, index);
      }
      ChainEnds(ram, q0, index, 0);
    }

    method PushUsed(head: nat, written: nat)
      modifies `ram
      ensures ram == if Ready(q) then PushedUsed(old(ram), q, head, written) else old(ram)
    {
      hide ReadInt, WriteAt, LeBytes, Wrap;
      if !Ready(q) { return; }
      var usedIdx := ReadInt(ram, Wrap(q.used + 2), 2);
      var slot := q.used + 4 + usedIdx % q.num * 8;
      ram := WriteAt(ram, Wrap(slot), LeBytes(head, 4));
      ram := WriteAt(ram, Wrap(slot + 4), LeBytes(written, 4));
      ram := WriteAt(ram, Wrap(q.used + 2), LeBytes((usedIdx + 1) % 0x1_0000, 2));
    }

    /** Interrupt the driver, unless it asked not to be. */
    method SignalUsed()
      modifies `interrupt
      ensures interrupt == (old(interrupt) || (Ready(q) && ReadInt(ram, q.avail, 2) % 2 == 0))
    {
      if Ready(q) && ReadInt(ram, q.avail, 2) % 2 == 0 { interrupt := true; }
    }

    /** Write to guest memory; false if it is not RAM. */
    method WriteGuest(addr: nat, data: seq<Byte>) returns (ok: bool)
      modifies `ram
      ensures ram == WriteAt(old(ram), addr, data) && ok == InRam(ram, addr, |data|)
    {
      ok := InRam(ram, addr, |data|);
      ram := WriteAt(ram, addr, data);
    }
  }

  lemma ChainStep(ram: seq<Byte>, q: Queue, index: nat, fuel: nat, before: seq<Segment>)
    requires fuel > 0 && index < q.num
    ensures before + Chain(ram, q, index, fuel) ==
      before + [Buffer(ram, q, index)] +
        if Continues(ram, q, index) then Chain(ram, q, NextIndex(ram, q, index), fuel - 1) else []
  {
    hide Buffer, Continues, NextIndex;
  }

  lemma ChainEnds(ram: seq<Byte>, q: Queue, index: nat, fuel: nat)
    requires fuel == 0 || index >= q.num
    ensures Chain(ram, q, index, fuel) == []
  {
  }

  lemma WriteAppend(ram: seq<Byte>, addr: nat, x: seq<Byte>, y: seq<Byte>)
    requires InRam(ram, addr, |x| + |y|)
    ensures WriteAt(WriteAt(ram, addr, x), addr + |x|, y) == WriteAt(ram, addr, x + y)
  {
    hide Patch;
    PatchAppend(ram, addr - BASE, x, y);
  }

  lemma SliceIs<T>(s: seq<T>, at: nat, n: nat, r: seq<T>)
    requires at + n <= |s| && |r| == n && forall k :: 0 <= k < n ==> r[k] == s[at + k]
    ensures r == s[at..at + n]
  {
  }

  lemma SlicesJoin<T>(s: seq<T>, at: nat, n: nat, m: nat)
    requires at + n + m <= |s|
    ensures s[at..at + n] + s[at + n..at + n + m] == s[at..at + n + m]
    ensures n == 0 ==> s[at + n..at + n + m] == s[at..at + n + m]
  {
  }

  lemma FetchAppend(ram: seq<Byte>, addr: nat, n: nat, m: nat)
    requires InRam(ram, addr, n + m)
    ensures Fetch(ram, addr, n) + Fetch(ram, addr + n, m) == Fetch(ram, addr, n + m)
  {
  }

  lemma NextFetched(ram: seq<Byte>, addr: nat, done: nat, n: nat, a: nat)
    requires a == addr + done && InRam(ram, addr, done + n) && InRam(ram, a, n)
    ensures if done == 0 then Fetch(ram, a, n) == Fetch(ram, addr, n)
            else Fetch(ram, addr, done) + Fetch(ram, a, n) == Fetch(ram, addr, done + n)
  {
    if done > 0 { FetchAppend(ram, addr, done, n); }
  }

  /** Where the next part of a buffer is, and whether it is RAM: the address does not wrap unless
      the buffer has already run off the end of memory. */
  lemma NextPart(ram: seq<Byte>, addr: nat, done: nat, n: nat)
    requires addr < U64 && BASE + |ram| <= U64 && n > 0 && (done > 0 ==> InRam(ram, addr, done))
    ensures InRam(ram, Wrap(addr + done), n) ==> Wrap(addr + done) == addr + done && InRam(ram, addr, done + n)
    ensures InRam(ram, addr, done + n) ==> InRam(ram, Wrap(addr + done), n)
  {
    if addr + done < U64 {
      assert Wrap(addr + done) == addr + done;
    } else {
      assert addr + done == U64;
    }
  }

  /** A part that is not RAM is as far as the buffer reaches. */
  lemma StopsHere(ram: seq<Byte>, s: Segment, done: nat)
    requires done < s.len && done % CHUNK == 0 && (done > 0 ==> InRam(ram, s.addr, done))
    requires !InRam(ram, s.addr, done + Min(CHUNK, s.len - done))
    ensures Reached(ram, s) == s.(len := done) && !SegInRam(ram, s)
  {
    if BASE <= s.addr <= BASE + |ram| { WholeChunks(BASE + |ram| - s.addr, done); }
  }

  lemma WholeChunks(room: nat, done: nat)
    requires done % CHUNK == 0 && done <= room < done + CHUNK
    ensures room / CHUNK * CHUNK == done
  {
  }

  lemma WriteCovered(ram0: seq<Byte>, ram: seq<Byte>, s: Segment, segs: seq<Segment>, i: nat, done: nat,
                     data: seq<Byte>)
    requires Untouched(ram0, ram, segs) && i < |segs| && segs[i] == s && s.deviceWrites && done + |data| <= s.len
    ensures Untouched(ram0, WriteAt(ram, s.addr + done, data), segs)
  {
    var r := WriteAt(ram, s.addr + done, data);
    forall k | 0 <= k < |ram0| && !Covered(segs, BASE + k) ensures r[k] == ram0[k] {
      assert !(s.addr <= BASE + k < s.addr + s.len);
    }
  }

  class VirtioBlk {
    const core: Core
    const disk: Disk
    /** A pass stopped at its budget, so there may be more waiting. */
    var backlog: bool

    constructor (core: Core, disk: Disk)
      ensures this.core == core && this.disk == disk && !backlog
    {
      this.core, this.disk, backlog := core, disk, false;
    }

    /** Inside the disk reads and writes succeed, whatever backs it. */
    method FromDisk(at: nat, n: nat) returns (bytes: seq<Byte>)
      requires disk.Valid() && at + n <= disk.size
      ensures bytes == disk.Flat()[at..at + n]
    {
      hide Flatten;
      var ok, data := disk.Read(at, n);
      SliceIs(disk.Flat(), at, n, data);
      return data;
    }

    method ToDisk(at: nat, bytes: seq<Byte>)
      requires disk.Valid() && at + |bytes| <= disk.size
      modifies disk
      ensures disk.Valid() && disk.Flat() == Patch(old(disk.Flat()), at, bytes)
    {
      hide Flatten, Patch;
      var ok := disk.Write(at, bytes);
      PatchIs(old(disk.Flat()), at, bytes, disk.Flat());
    }

    /** One buffer of a read, a chunk at a time. */
    method FillSegment(s: Segment, at: nat, ghost segs: seq<Segment>, ghost i: nat) returns (ok: bool)
      requires disk.Valid() && at + s.len <= disk.size && s.addr < U64 && BASE + |core.ram| <= U64
      requires i < |segs| && segs[i] == s && s.deviceWrites
      modifies core`ram
      ensures Untouched(old(core.ram), core.ram, segs)
      ensures ok <==> SegInRam(old(core.ram), s)
      ensures var r := Reached(old(core.ram), s);
              core.ram == Place(old(core.ram), r, disk.Flat()[at..at + r.len])
    {
      hide WriteAt, Wrap, Untouched, Fetch, Flatten, Reached;
      UntouchedRefl(core.ram, segs);
      ghost var flat, ram0 := disk.Flat(), core.ram;
      var done := 0;
      while done < s.len
        invariant done <= s.len && |core.ram| == |ram0| && (done % CHUNK == 0 || done == s.len)
        invariant done > 0 ==> InRam(core.ram, s.addr, done)
        invariant core.ram == if done == 0 then ram0 else WriteAt(ram0, s.addr, flat[at..at + done])
        invariant Untouched(ram0, core.ram, segs)
      {
        var n := Min(CHUNK, s.len - done);
        NextPart(core.ram, s.addr, done, n);
        var bytes := FromDisk(at + done, n);
        ghost var before := core.ram;
        var okRam := core.WriteGuest(Wrap(s.addr + done), bytes);
        if !okRam {
          WriteMissed(before, Wrap(s.addr + done), bytes);
          StopsHere(ram0, s, done);
          return false;
        }
        WriteCovered(ram0, before, s, segs, i, done, bytes);
        SlicesJoin(flat, at, done, n);
        if done > 0 { WriteAppend(ram0, s.addr, flat[at..at + done], bytes); }
        done := done + n;
      }
      return true;
    }

    /** One buffer of a write. */
    method DrainSegment(s: Segment, at: nat) returns (ok: bool)
      requires disk.Valid() && at + s.len <= disk.size && s.addr < U64 && BASE + |core.ram| <= U64
      modifies disk
      ensures disk.Valid()
      ensures ok <==> SegInRam(core.ram, s)
      ensures disk.Flat() == Patch(old(disk.Flat()), at, Piece(core.ram, Reached(core.ram, s)))
    {
      hide Wrap, Fetch, Patch, Flatten, Reached;
      ghost var part: seq<Byte> := [];
      PatchNothing(disk.Flat(), at);
      var done := 0;
      while done < s.len
        invariant done <= s.len && disk.Valid() && |part| == done && (done % CHUNK == 0 || done == s.len)
        invariant done > 0 ==> InRam(core.ram, s.addr, done) && part == Fetch(core.ram, s.addr, done)
        invariant disk.Flat() == Patch(old(disk.Flat()), at, part)
      {
        var n := Min(CHUNK, s.len - done);
        var a := Wrap(s.addr + done);
        NextPart(core.ram, s.addr, done, n);
        if !InRam(core.ram, a, n) {
          StopsHere(core.ram, s, done);
          return false;
        }
        var bytes := Fetch(core.ram, a, n);
        ToDisk(at + done, bytes);
        PatchAppend(old(disk.Flat()), at, part, bytes);
        NextFetched(core.ram, s.addr, done, n, a);
        part := part + bytes;
        done := done + n;
      }
      return true;
    }

    /** All buffers of a read. */
    method Fill(data: seq<Segment>, at: nat, ghost segs: seq<Segment>) returns (ok: bool, written: nat)
      requires disk.Valid() && at + Total(data) <= disk.size && BASE + |core.ram| <= U64
      requires |segs| >= 2 && data == segs[1..|segs| - 1] && Addressed(segs) && Faces(data, true)
      modifies core`ram
      ensures Untouched(old(core.ram), core.ram, segs) && |core.ram| == |old(core.ram)|
      ensures ok <==> AllInRam(old(core.ram), data)
      ensures written == Complete(old(core.ram), data) % U32
      ensures core.ram == AfterRead(old(core.ram), old(core.ram), data, disk.Flat(), at)
    {
      hide Untouched, Place, SegInRam, Flatten, AfterRead, Total, Complete;
      UntouchedRefl(core.ram, segs);
      Whole(data);
      var off: nat := at;
      ok, written := true, 0;
      ghost var flat, ram0 := disk.Flat(), core.ram;
      for i := 0 to |data|
        invariant |core.ram| == |ram0|
        invariant off + Total(data[i..]) == at + Total(data)
        invariant Untouched(ram0, core.ram, segs)
        invariant written < U32 && (written + Complete(ram0, data[i..])) % U32 == Complete(ram0, data) % U32
        invariant forall j :: 0 <= j < i ==> SegInRam(ram0, data[j])
        invariant AfterRead(ram0, core.ram, data[i..], flat, off) == AfterRead(ram0, ram0, data, flat, at)
      {
        var s := data[i];
        TotalStep(data, i);
        ghost var before := core.ram;
        var okSeg := FillSegment(s, off, segs, i + 1);
        UntouchedTrans(ram0, before, core.ram, segs);
        SameReach(ram0, before, s);
        ReadStep(ram0, before, data, i, flat, off);
        if !okSeg { return false, written; }
        WrapSum(written, s.len, Complete(ram0, data[i + 1..]));
        off, written := off + s.len, (written + s.len) % U32;
      }
      NothingRead(ram0, core.ram, data, flat, off);
    }

    /** All buffers of a write. */
    method Drain(data: seq<Segment>, at: nat) returns (ok: bool)
      requires disk.Valid() && at + Total(data) <= disk.size && BASE + |core.ram| <= U64 && Addressed(data)
      modifies disk
      ensures disk.Valid()
      ensures ok <==> AllInRam(core.ram, data)
      ensures disk.Flat() == Patch(old(disk.Flat()), at, Gather(core.ram, Moved(core.ram, data)))
    {
      hide SegInRam, Piece, Patch, Flatten, Gather, Total, Reached, Moved;
      Whole(data);
      var off: nat := at;
      ghost var taken: seq<Byte> := [];
      PatchNothing(disk.Flat(), at);
      for i := 0 to |data|
        invariant disk.Valid()
        invariant at <= off && off + Total(data[i..]) == at + Total(data) && |taken| == off - at
        invariant forall j :: 0 <= j < i ==> SegInRam(core.ram, data[j])
        invariant Gather(core.ram, Moved(core.ram, data)) == taken + Gather(core.ram, Moved(core.ram, data[i..]))
        invariant disk.Flat() == Patch(old(disk.Flat()), at, taken)
      {
        var s := data[i];
        TotalStep(data, i);
        var okSeg := DrainSegment(s, off);
        ghost var piece := Piece(core.ram, Reached(core.ram, s));
        PatchAppend(old(disk.Flat()), at, taken, piece);
        GatherStep(core.ram, data, i, taken);
        if !okSeg { return false; }
        taken := taken + piece;
        off := off + s.len;
      }
      NothingGathered(core.ram, data, taken);
      return true;
    }

    /** Everything a well-formed request does before its status byte. */
    method Perform(kind: nat, sector: nat, data: seq<Segment>, ghost segs: seq<Segment>)
      returns (status: Byte, written: nat)
      requires disk.Valid() && BASE + |core.ram| <= U64
      requires |segs| >= 2 && data == segs[1..|segs| - 1] && Addressed(segs)
      modifies core`ram, disk
      ensures disk.Valid() && Untouched(old(core.ram), core.ram, segs)
      ensures Effect(core.ram, disk.Flat(), status, written) ==
              Performed(old(core.ram), old(disk.Flat()), kind, sector, data)
    {
      hide Untouched, Scatter, Gather, Total, WriteAt, Patch, Flatten, SegInRam, Moved, Complete, AllInRam;
      UntouchedRefl(core.ram, segs);
      status, written := S_OK, 0;
      if kind == T_IN || kind == T_OUT {
        var isRead, total, size := kind == T_IN, Total(data), disk.size;
        BoundsCheck(size, sector, total);
        if !Faces(data, isRead) || sector > size / SECTOR || total > size || sector * SECTOR > size - total {
          status := S_IOERR;
        } else if isRead {
          var ok, w := Fill(data, sector * SECTOR, segs);
          status, written := if ok then S_OK else S_IOERR, w;
        } else {
          var ok := Drain(data, sector * SECTOR);
          status := if ok then S_OK else S_IOERR;
        }
      } else if kind == T_GET_ID {
        if data != [] && data[0].deviceWrites {
          var n := IdLen(data[0]);
          var before := core.ram;
          var ok := core.WriteGuest(data[0].addr, ID[..n]);
          if ok {
            WriteCovered(before, before, data[0], segs, 1, 0, ID[..n]);
            written := n;
          } else {
            WriteMissed(before, data[0].addr, ID[..n]);
            status := S_IOERR;
          }
        } else {
          status := S_IOERR;
        }
      } else if kind != T_FLUSH {
        status := S_UNSUPP;
      }
    }

    /** One chain, completed whatever it holds. */
    method ProcessRequest(head: nat, segs: seq<Segment>) returns (ghost mid: seq<Byte>, ghost written: nat)
      requires disk.Valid() && BASE + |core.ram| <= U64 && Addressed(segs)
      modifies core`ram, disk
      ensures disk.Valid()
      ensures Handled(old(core.ram), old(disk.Flat()), segs, mid, disk.Flat(), written)
      ensures core.ram == if Ready(core.q) then PushedUsed(mid, core.q, head, written) else mid
    {
      hide Untouched, WriteAt, PushedUsed, Fetch, Le, Performed, Flatten;
      mid, written := core.ram, 0;
      var p := Parse(core.ram, segs);
      if p.Malformed? {
        UntouchedRefl(core.ram, segs);
        core.PushUsed(head, 0);
        return;
      }
      var status, w := Perform(p.kind, p.sector, p.data, segs);
      ghost var before := core.ram;
      var ok := core.WriteGuest(p.status, [status]);
      mid, written := core.ram, (w + 1) % U32;
      WriteCovered(old(core.ram), before, segs[|segs| - 1], segs, |segs| - 1, 0, [status]);
      core.PushUsed(head, (w + 1) % U32);
    }

    /** The rings are in order and every waiting chain keeps its buffers off them. */
    ghost predicate Serving(published: seq<nat>, completed: seq<nat>)
      reads this, core, disk
    {
      && disk.Valid()
      && Ring(core.ram, core.q, published, completed)
      && WaitingSafe(core.ram, core.q, published, |completed|)
    }

    /** One pass over the queue. It completes a run of the waiting chains, in order, each exactly
        once; at least one if any waits; all of them unless it says there is a backlog. */
    method Service(ghost published: seq<nat>, ghost completed: seq<nat>) returns (ghost done: seq<nat>)
      requires Serving(published, completed)
      modifies this, core, disk
      ensures Serving(published, done) && completed <= done <= published
      ensures !backlog ==> done == published
      ensures completed != published ==> |done| > |completed|
      ensures |done| <= |completed| + 8 && |core.ram| == old(|core.ram|)
      ensures backlog ==>
        |done| == |completed| + 8 || BytesOf(old(core.ram), old(core.q), done[|completed|..]) >= 0x10_0000
      ensures |done| > |completed| ==>
        BytesOf(old(core.ram), old(core.q), done[|completed|..|done| - 1]) < 0x10_0000
      ensures core.interrupt ==
        (old(core.interrupt) || (done != completed && ReadInt(core.ram, core.q.avail, 2) % 2 == 0))
      ensures Carried(old(core.ram), old(disk.Flat()), old(core.q), done[|completed|..], core.ram, disk.Flat())
    {
      hide Ring, WaitingSafe, Carried, ChainAt, AvailHead, AvailIdx, PushedUsed, Handled, Fetch, Laid;
      hide RingsKept, Flatten, Total, SameChains, BytesOf;
      var count, bytes := 0, 0;
      backlog := false;
      done := completed;
      RingFacts(core.ram, core.q, published, completed);
      NoneCarried(core.ram, disk.Flat(), core.q, completed);
      NoBytes(core.ram, core.q, completed, published);
      while true
        invariant disk.Valid() && !backlog && count < MAX_REQUESTS && |core.ram| == old(|core.ram|)
        invariant core.interrupt == old(core.interrupt)
        invariant Ring(core.ram, core.q, published, done) && WaitingSafe(core.ram, core.q, published, |done|)
        invariant completed <= done <= published && |done| == |completed| + count
        invariant core.q == old(core.q).(lastAvail := core.q.lastAvail)
        invariant SameChains(old(core.ram), old(core.q), core.ram, core.q, published, |done|)
        invariant bytes == BytesOf(old(core.ram), old(core.q), done[|completed|..]) < MAX_BYTES
        invariant count > 0 ==> BytesOf(old(core.ram), old(core.q), done[|completed|..|done| - 1]) < MAX_BYTES
        invariant Carried(old(core.ram), old(disk.Flat()), old(core.q), done[|completed|..], core.ram, disk.Flat())
        decreases MAX_REQUESTS - count
      {
        RingFacts(core.ram, core.q, published, done);
        Waiting(core.ram, core.q, published, done);
        ghost var ram0, q0, flat0 := core.ram, core.q, disk.Flat();
        var r := core.PopChain();
        if r.None? { break; }
        var head, segs := r.value.head, r.value.segs;
        assert head == published[|done|];
        bytes := bytes + Total(segs);
        ChainAddressed(ram0, q0, head);
        ghost var mid, written := ProcessRequest(head, segs);
        HandledFrame(ram0, flat0, segs, mid, disk.Flat(), written);
        ServeOne(ram0, mid, q0, published, done, segs, written);
        ChainsOn(old(core.ram), old(core.q), ram0, mid, q0, published, done, segs, written);
        MoreBytes(old(core.ram), old(core.q), ram0, q0, published, done, |completed|);
        SamePush(mid, q0, core.q, head, written);
        CarryOne(old(core.ram), old(disk.Flat()), old(core.q), q0, done, |completed|,
                 ram0, flat0, head, mid, disk.Flat(), written);
        done := done + [head];
        count := count + 1;
        if count >= MAX_REQUESTS || bytes >= MAX_BYTES {
          backlog := true;
          break;
        }
      }
      if count > 0 {
        core.SignalUsed();
      }
    }

    /** The driver rang the doorbell. */
    method Notify(ghost published: seq<nat>, ghost completed: seq<nat>) returns (ghost done: seq<nat>)
      requires Serving(published, completed)
      modifies this, core, disk
      ensures Serving(published, done) && completed <= done <= published
      ensures !backlog ==> done == published
      ensures completed != published ==> |done| > |completed|
      ensures Carried(old(core.ram), old(disk.Flat()), old(core.q), done[|completed|..], core.ram, disk.Flat())
    {
      hide Ring, WaitingSafe, Carried;
      RingFacts(core.ram, core.q, published, completed);
      done := Service(published, completed);
    }

    /** The once-per-round poll finishes what passes left over: while there is a backlog every poll
        completes at least one waiting chain, and when the backlog is gone none waits. */
    method Poll(ghost published: seq<nat>, ghost completed: seq<nat>) returns (ghost done: seq<nat>)
      requires Serving(published, completed)
      modifies this, core, disk
      ensures Serving(published, done) && completed <= done <= published
      ensures old(backlog) && completed != published ==> |done| > |completed|
      ensures old(backlog) && !backlog ==> done == published
      ensures !old(backlog) ==> done == completed && !backlog && unchanged(core, disk)
      ensures Carried(old(core.ram), old(disk.Flat()), old(core.q), done[|completed|..], core.ram, disk.Flat())
    {
      hide Ring, WaitingSafe, Carried;
      RingFacts(core.ram, core.q, published, completed);
      NoneCarried(core.ram, disk.Flat(), core.q, completed);
      done := completed;
      if backlog {
        done := Service(published, completed);
      }
    }
  }

  /** The requests with these heads carried out one after another, each completion pushed before
      the next begins. */
  ghost predicate Carried(ram: seq<Byte>, flat: seq<Byte>, q: Queue, heads: seq<nat>, ram': seq<Byte>, flat': seq<Byte>)
    requires q.num > 0
    decreases |heads|
  {
    if heads == [] then ram' == ram && flat' == flat
    else
      var n := |heads| - 1;
      exists ram1, flat1, mid, written ::
        Carried(ram, flat, q, heads[..n], ram1, flat1) &&
        CarriedLast(ram1, flat1, q, heads[n], mid, written, ram', flat')
  }

  ghost predicate CarriedLast(ram: seq<Byte>, flat: seq<Byte>, q: Queue, head: nat, mid: seq<Byte>, written: nat,
                              ram': seq<Byte>, flat': seq<Byte>)
    requires q.num > 0
  {
    Handled(ram, flat, ChainAt(ram, q, head), mid, flat', written) && ram' == PushedUsed(mid, q, head, written)
  }

  lemma NoneCarried(ram: seq<Byte>, flat: seq<Byte>, q: Queue, completed: seq<nat>)
    requires q.num > 0
    ensures Carried(ram, flat, q, completed[|completed|..], ram, flat)
  {
  }

  lemma CarryOne(ram: seq<Byte>, flat: seq<Byte>, q: Queue, q1: Queue, done: seq<nat>, from: nat, ram1: seq<Byte>,
                 flat1: seq<Byte>, head: nat, mid: seq<Byte>, flat2: seq<Byte>, written: nat)
    requires q.num > 0 && q1 == q.(lastAvail := q1.lastAvail) && from <= |done|
    requires Carried(ram, flat, q, done[from..], ram1, flat1)
    requires Handled(ram1, flat1, ChainAt(ram1, q1, head), mid, flat2, written)
    ensures Carried(ram, flat, q, (done + [head])[from..], PushedUsed(mid, q1, head, written), flat2)
  {
    hide Handled, PushedUsed, Chain;
    SameChain(ram1, q, q1, head, MAX_CHAIN);
    SamePush(mid, q, q1, head, written);
    var heads := (done + [head])[from..];
    assert heads == done[from..] + [head] && heads[..|heads| - 1] == done[from..];
    assert Carried(ram, flat, q, heads[..|heads| - 1], ram1, flat1);
    assert CarriedLast(ram1, flat1, q, heads[|heads| - 1], mid, written, PushedUsed(mid, q1, head, written), flat2);
  }

  ghost predicate WaitingSafe(ram: seq<Byte>, q: Queue, published: seq<nat>, from: nat) {
    forall k :: from <= k < |published| ==> Safe(q, ChainAt(ram, q, published[k]))
  }

  lemma RingFacts(ram: seq<Byte>, q: Queue, published: seq<nat>, completed: seq<nat>)
    requires Ring(ram, q, published, completed)
    ensures completed <= published && Ready(q) && BASE + |ram| <= U64
  {
    hide AvailSide, UsedSide;
  }

  lemma HandledFrame(ram: seq<Byte>, disk: seq<Byte>, segs: seq<Segment>, ram': seq<Byte>, disk': seq<Byte>,
                     written: nat)
    requires Handled(ram, disk, segs, ram', disk', written)
    ensures Untouched(ram, ram', segs) && |ram'| == |ram| && written < U32
  {
    hide Parse;
  }

  lemma SamePush(ram: seq<Byte>, q: Queue, q': Queue, head: nat, written: nat)
    requires q.num > 0 && q' == q.(lastAvail := q'.lastAvail)
    ensures PushedUsed(ram, q', head, written) == PushedUsed(ram, q, head, written)
  {
    hide ReadInt, WriteAt, Wrap, LeBytes;
  }

  lemma ChainAddressed(ram: seq<Byte>, q: Queue, head: nat)
    ensures Addressed(ChainAt(ram, q, head))
  {
    hide Chain;
    ChainAddresses(ram, q, head, MAX_CHAIN);
  }

  lemma {:induction false} ChainAddresses(ram: seq<Byte>, q: Queue, index: nat, fuel: nat)
    ensures Addressed(Chain(ram, q, index, fuel))
    decreases fuel
  {
    hide Continues, NextIndex, Buffer;
    if fuel > 0 && index < q.num {
      BufferAddressed(ram, q, index);
      if Continues(ram, q, index) { ChainAddresses(ram, q, NextIndex(ram, q, index), fuel - 1); }
    }
  }

  lemma BufferAddressed(ram: seq<Byte>, q: Queue, index: nat)
    ensures Buffer(ram, q, index).addr < U64
  {
    hide ReadInt, Wrap;
    Read8(ram, Wrap(q.desc + index * 16));
  }

  lemma Read8(ram: seq<Byte>, addr: nat)
    ensures ReadInt(ram, addr, 8) < U64
  {
    if InRam(ram, addr, 8) { LeBound(Fetch(ram, addr, 8)); }
  }

  lemma ServeOne(ram: seq<Byte>, mid: seq<Byte>, q: Queue, published: seq<nat>, completed: seq<nat>,
                 segs: seq<Segment>, written: nat)
    requires Ring(ram, q, published, completed) && WaitingSafe(ram, q, published, |completed|)
    requires |completed| < |published|
    requires segs == ChainAt(ram, q, published[|completed|]) && Untouched(ram, mid, segs) && written < U32
    ensures Ready(q)
    ensures var head := published[|completed|];
            var r, q' := PushedUsed(mid, q, head, written), q.(lastAvail := (q.lastAvail + 1) % 0x1_0000);
            Ring(r, q', published, completed + [head]) && WaitingSafe(r, q', published, |completed| + 1)
  {
    hide AvailSide, UsedSide, PushedUsed, ChainAt, Untouched, Fetch, RingsKept;
    var head := published[|completed|];
    var r, q' := PushedUsed(mid, q, head, written), q.(lastAvail := (q.lastAvail + 1) % 0x1_0000);
    UntouchedRings(ram, mid, q, segs);
    CompleteOne(ram, mid, q, published, completed, written);
    forall k | |completed| + 1 <= k < |published| ensures Safe(q', ChainAt(r, q', published[k])) {
      ChainsStand(ram, mid, q, head, written, published[k]);
      assert Safe(q, ChainAt(ram, q, published[k]));
    }
  }

  /** The waiting chains are still those of an earlier state. */
  ghost predicate SameChains(ram0: seq<Byte>, q0: Queue, ram: seq<Byte>, q: Queue, published: seq<nat>, from: nat) {
    forall k {:trigger published[k]} :: from <= k < |published| ==>
      ChainAt(ram, q, published[k]) == ChainAt(ram0, q0, published[k])
  }

  /** How many bytes the chains with these heads describe. */
  ghost function BytesOf(ram: seq<Byte>, q: Queue, heads: seq<nat>): nat {
    if heads == [] then 0
    else BytesOf(ram, q, heads[..|heads| - 1]) + Total(ChainAt(ram, q, heads[|heads| - 1]))
  }

  lemma NoBytes(ram: seq<Byte>, q: Queue, completed: seq<nat>, published: seq<nat>)
    ensures BytesOf(ram, q, completed[|completed|..]) == 0 && SameChains(ram, q, ram, q, published, |completed|)
  {
  }

  lemma MoreBytes(ram0: seq<Byte>, q0: Queue, ram: seq<Byte>, q: Queue, published: seq<nat>, done: seq<nat>, from: nat)
    requires from <= |done| < |published| && SameChains(ram0, q0, ram, q, published, |done|)
    ensures var head := published[|done|];
            && BytesOf(ram0, q0, (done + [head])[from..]) ==
               BytesOf(ram0, q0, done[from..]) + Total(ChainAt(ram, q, head))
            && (done + [head])[from..|done|] == done[from..]
  {
    hide ChainAt, Total;
    var head := published[|done|];
    var heads := (done + [head])[from..];
    assert heads[..|heads| - 1] == done[from..] && heads[|heads| - 1] == head;
  }

  lemma ChainsOn(ram0: seq<Byte>, q0: Queue, ram: seq<Byte>, mid: seq<Byte>, q: Queue, published: seq<nat>,
                 completed: seq<nat>, segs: seq<Segment>, written: nat)
    requires SameChains(ram0, q0, ram, q, published, |completed|) && |completed| < |published|
    requires Ring(ram, q, published, completed) && WaitingSafe(ram, q, published, |completed|)
    requires segs == ChainAt(ram, q, published[|completed|]) && Untouched(ram, mid, segs) && Ready(q)
    ensures SameChains(ram0, q0, PushedUsed(mid, q, published[|completed|], written),
                       q.(lastAvail := (q.lastAvail + 1) % 0x1_0000), published, |completed| + 1)
  {
    hide AvailSide, UsedSide, PushedUsed, ChainAt, Untouched, Fetch, RingsKept;
    var head := published[|completed|];
    UntouchedRings(ram, mid, q, segs);
    forall k {:trigger published[k]} | |completed| + 1 <= k < |published|
      ensures ChainAt(PushedUsed(mid, q, head, written), q.(lastAvail := (q.lastAvail + 1) % 0x1_0000), published[k]) ==
              ChainAt(ram0, q0, published[k])
    {
      ChainsStand(ram, mid, q, head, written, published[k]);
    }
  }

  /** Completing one chain does not change another. */
  lemma ChainsStand(ram: seq<Byte>, mid: seq<Byte>, q: Queue, head: nat, written: nat, other: nat)
    requires Laid(ram, q) && RingsKept(ram, mid, q)
    ensures ChainAt(PushedUsed(mid, q, head, written), q.(lastAvail := (q.lastAvail + 1) % 0x1_0000), other) ==
      ChainAt(ram, q, other)
  {
    hide PushedUsed, Fetch, Chain;
    var r, q' := PushedUsed(mid, q, head, written), q.(lastAvail := (q.lastAvail + 1) % 0x1_0000);
    ChainKept(ram, mid, q, other, MAX_CHAIN);
    PushKeepsDriverSide(mid, q, head, written);
    ChainKept(mid, r, q, other, MAX_CHAIN);
    SameChain(r, q, q', other, MAX_CHAIN);
  }

  lemma Whole(data: seq<Segment>)
    ensures data[0..] == data
  {
  }

  lemma TotalStep(data: seq<Segment>, i: nat)
    requires i < |data|
    ensures Total(data[i..]) == data[i].len + Total(data[i + 1..])
  {
    assert data[i..][1..] == data[i + 1..];
  }

  /** Memory (of the size of ram0) after a read from the disk at an offset. */
  function AfterRead(ram0: seq<Byte>, ram: seq<Byte>, data: seq<Segment>, flat: seq<Byte>, off: nat): (r: seq<Byte>)
    requires off + Total(data) <= |flat|
  {
    Scatter(ram, Moved(ram0, data), flat[off..off + Total(Moved(ram0, data))])
  }

  lemma ReadStep(ram0: seq<Byte>, ram: seq<Byte>, data: seq<Segment>, i: nat, flat: seq<Byte>, off: nat)
    requires i < |data| && off + Total(data[i..]) <= |flat| && Total(data[i..]) == data[i].len + Total(data[i + 1..])
    ensures var r := Reached(ram0, data[i]);
            var next := Place(ram, r, flat[off..off + r.len]);
            && AfterRead(ram0, ram, data[i..], flat, off) ==
               (if SegInRam(ram0, data[i]) then AfterRead(ram0, next, data[i + 1..], flat, off + data[i].len) else next)
            && Complete(ram0, data[i..]) ==
               (if SegInRam(ram0, data[i]) then data[i].len + Complete(ram0, data[i + 1..]) else 0)
  {
    hide Place, Reached, SegInRam;
    var s, rest := data[i], data[i + 1..];
    assert data[i..][0] == s && data[i..][1..] == rest;
    MovedStep(ram0, data, i);
    ScatterStep(ram, Moved(ram0, data[i..]), flat, off);
    if SegInRam(ram0, s) { assert Moved(ram0, data[i..])[1..] == Moved(ram0, rest); }
  }

  lemma ScatterStep(ram: seq<Byte>, segs: seq<Segment>, flat: seq<Byte>, off: nat)
    requires segs != [] && off + Total(segs) <= |flat|
    ensures var s := segs[0];
            Scatter(ram, segs, flat[off..off + Total(segs)]) ==
            Scatter(Place(ram, s, flat[off..off + s.len]), segs[1..], flat[off + s.len..off + s.len + Total(segs[1..])])
  {
    hide Place;
    var s, bytes := segs[0], flat[off..off + Total(segs)];
    assert bytes[..s.len] == flat[off..off + s.len];
    assert bytes[s.len..] == flat[off + s.len..off + s.len + Total(segs[1..])];
  }

  lemma MovedStep(ram: seq<Byte>, data: seq<Segment>, i: nat)
    requires i < |data|
    ensures Moved(ram, data[i..]) ==
      [Reached(ram, data[i])] + if SegInRam(ram, data[i]) then Moved(ram, data[i + 1..]) else []
  {
    hide Reached, SegInRam;
    assert data[i..][1..] == data[i + 1..];
  }

  lemma GatherStep(ram: seq<Byte>, data: seq<Segment>, i: nat, taken: seq<Byte>)
    requires i < |data|
    ensures var more := taken + Piece(ram, Reached(ram, data[i]));
            taken + Gather(ram, Moved(ram, data[i..])) ==
              if SegInRam(ram, data[i]) then more + Gather(ram, Moved(ram, data[i + 1..])) else more
  {
    hide Piece, SegInRam, Moved, Reached;
    MovedStep(ram, data, i);
    var moved := Moved(ram, data[i..]);
    assert moved[0] == Reached(ram, data[i]);
    assert Gather(ram, moved) == Piece(ram, moved[0]) + Gather(ram, moved[1..]);
    if SegInRam(ram, data[i]) { assert moved[1..] == Moved(ram, data[i + 1..]); }
  }

  lemma NothingRead(ram0: seq<Byte>, ram: seq<Byte>, data: seq<Segment>, flat: seq<Byte>, off: nat)
    requires off <= |flat|
    ensures Total(data[|data|..]) == 0 && Complete(ram0, data[|data|..]) == 0
    ensures AfterRead(ram0, ram, data[|data|..], flat, off) == ram
  {
  }

  lemma NothingGathered(ram: seq<Byte>, data: seq<Segment>, taken: seq<Byte>)
    ensures taken + Gather(ram, Moved(ram, data[|data|..])) == taken
  {
  }

  /** How far a buffer reaches depends only on how much RAM there is. */
  lemma SameReach(a: seq<Byte>, b: seq<Byte>, s: Segment)
    requires |a| == |b|
    ensures Reached(a, s) == Reached(b, s) && SegInRam(a, s) == SegInRam(b, s)
  {
  }

  /** Buffer addresses are 64-bit. */
  predicate Addressed(segs: seq<Segment>) { forall i :: 0 <= i < |segs| ==> segs[i].addr < U64 }

  lemma UntouchedTrans(a: seq<Byte>, b: seq<Byte>, c: seq<Byte>, segs: seq<Segment>)
    requires Untouched(a, b, segs) && Untouched(b, c, segs)
    ensures Untouched(a, c, segs)
  {
  }

  lemma WrapSum(w: nat, n: nat, rest: nat)
    ensures ((w + n) % U32 + rest) % U32 == (w + (n + rest)) % U32
  {
  }

  lemma PatchAppend(flat: seq<Byte>, at: nat, x: seq<Byte>, y: seq<Byte>)
    requires at + |x| + |y| <= |flat|
    ensures Patch(Patch(flat, at, x), at + |x|, y) == Patch(flat, at, x + y)
  {
  }

  lemma PatchNothing(flat: seq<Byte>, at: nat)
    requires at <= |flat|
    ensures Patch(flat, at, []) == flat
  {
  }

  lemma UntouchedRefl(ram: seq<Byte>, segs: seq<Segment>)
    ensures Untouched(ram, ram, segs)
  {
  }

  lemma WriteMissed(ram: seq<Byte>, addr: nat, data: seq<Byte>)
    requires !InRam(ram, addr, |data|)
    ensures WriteAt(ram, addr, data) == ram
  {
  }
}
