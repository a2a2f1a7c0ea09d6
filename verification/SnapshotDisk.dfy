/** The block device's backing store (`src/virtio/blk.rs`). */
module SnapshotDisk {
  import opened Bytes
  import opened Prelude

  const SECTOR: nat := 512

  /** An image held in memory; an image file that writes go straight to; or an image file opened
      read-only under an overlay of the sectors the guest has written. */
  datatype Mode = Memory | Persistent | Snapshot

  /** A file after a write, which may lie past its end. */
  function FileWritten(file: seq<Byte>, offset: nat, src: seq<Byte>): (r: seq<Byte>)
    ensures |r| == if src == [] then |file| else Max(|file|, offset + |src|)
    ensures forall i :: 0 <= i < |r| ==>
      r[i] == if offset <= i < offset + |src| then src[i - offset] else if i < |file| then file[i] else 0
  {
    if src == [] then file
    else
      var padded := file + seq(Max(|file|, offset + |src|) - |file|, _ => 0);
      Patch(padded, offset, src)
  }

  /** What the guest sees at byte i. */
  function ByteAt(image: seq<Byte>, overlay: map<nat, seq<Byte>>, i: nat): Byte
    requires i < |image| && forall s :: s in overlay ==> |overlay[s]| == SECTOR
  {
    if i / SECTOR in overlay then overlay[i / SECTOR][i % SECTOR] else image[i]
  }

  /** The flat disk that image and overlay stand for. */
  function Flatten(image: seq<Byte>, overlay: map<nat, seq<Byte>>): (r: seq<Byte>)
    requires forall s :: s in overlay ==> |overlay[s]| == SECTOR
    ensures |r| == |image| && forall i :: 0 <= i < |image| ==> r[i] == ByteAt(image, overlay, i)
  {
    seq(|image|, i requires 0 <= i < |image| => ByteAt(image, overlay, i))
  }

  /** A buffer read from the image, with the overlay patched in before byte `upTo` of the disk. */
  ghost predicate Shadowed(image: seq<Byte>, overlay: map<nat, seq<Byte>>, offset: nat, dst: seq<Byte>, upTo: nat)
    requires offset + |dst| <= |image| && forall t :: t in overlay ==> |overlay[t]| == SECTOR
  {
    forall k :: 0 <= k < |dst| ==>
      dst[k] == if offset + k < upTo then ByteAt(image, overlay, offset + k) else image[offset + k]
  }

  lemma NoneShadowed(image: seq<Byte>, overlay: map<nat, seq<Byte>>, offset: nat, dst: seq<Byte>, upTo: nat)
    requires offset + |dst| <= |image| && dst == image[offset..offset + |dst|] && upTo <= offset
    requires forall t :: t in overlay ==> |overlay[t]| == SECTOR
    ensures Shadowed(image, overlay, offset, dst, upTo)
  {
  }

  lemma AllShadowed(image: seq<Byte>, overlay: map<nat, seq<Byte>>, offset: nat, dst: seq<Byte>, upTo: nat)
    requires offset + |dst| <= |image| && forall t :: t in overlay ==> |overlay[t]| == SECTOR
    requires Shadowed(image, overlay, offset, dst, upTo) && offset + |dst| <= upTo
    ensures forall k :: 0 <= k < |dst| ==> dst[k] == ByteAt(image, overlay, offset + k)
  {
    hide ByteAt;
  }

  lemma SectorStep(image: seq<Byte>, overlay: map<nat, seq<Byte>>, offset: nat, dst: seq<Byte>, s: nat)
    requires offset + |dst| <= |image| && forall t :: t in overlay ==> |overlay[t]| == SECTOR
    requires Shadowed(image, overlay, offset, dst, s * SECTOR)
    requires offset < s * SECTOR + SECTOR && s * SECTOR < offset + |dst|
    ensures s !in overlay ==> Shadowed(image, overlay, offset, dst, s * SECTOR + SECTOR)
    ensures s in overlay ==>
      Shadowed(image, overlay, offset, Overlaid(overlay[s], offset, dst, s * SECTOR), s * SECTOR + SECTOR)
  {
    hide ByteAt, Overlaid;
    var d := if s in overlay then Overlaid(overlay[s], offset, dst, s * SECTOR) else dst;
    forall k | 0 <= k < |d|
      ensures d[k] == if offset + k < s * SECTOR + SECTOR then ByteAt(image, overlay, offset + k) else image[offset + k]
    {
      if s in overlay { OverlaidAt(overlay[s], offset, dst, s * SECTOR, k); }
      if s * SECTOR <= offset + k < s * SECTOR + SECTOR { ByteIs(image, overlay, offset + k, s); }
    }
  }

  /** A sector that starts at byte `start` of the disk, patched into a buffer read from `offset`. */
  function Overlaid(sector: seq<Byte>, offset: nat, dst: seq<Byte>, start: nat): (r: seq<Byte>)
    requires |sector| == SECTOR && offset < start + SECTOR && start < offset + |dst|
    ensures |r| == |dst|
  {
    var from, to := Max(start, offset), Min(start + SECTOR, offset + |dst|);
    Patch(dst, from - offset, sector[from - start..to - start])
  }

  lemma OverlaidAt(sector: seq<Byte>, offset: nat, dst: seq<Byte>, start: nat, k: nat)
    requires |sector| == SECTOR && offset < start + SECTOR && start < offset + |dst| && k < |dst|
    ensures Overlaid(sector, offset, dst, start)[k] ==
      if start <= offset + k < start + SECTOR then sector[offset + k - start] else dst[k]
  {
    hide Patch;
    var from, to := Max(start, offset), Min(start + SECTOR, offset + |dst|);
    PatchedAt(dst, from - offset, sector[from - start..to - start], k);
  }

  lemma PatchedAt(dst: seq<Byte>, at: nat, src: seq<Byte>, k: nat)
    requires at + |src| <= |dst| && k < |dst|
    ensures Patch(dst, at, src)[k] == if at <= k < at + |src| then src[k - at] else dst[k]
  {
  }

  lemma ByteIs(image: seq<Byte>, overlay: map<nat, seq<Byte>>, i: nat, s: nat)
    requires i < |image| && s * SECTOR <= i < s * SECTOR + SECTOR && forall t :: t in overlay ==> |overlay[t]| == SECTOR
    ensures s in overlay ==> 0 <= i - s * SECTOR < SECTOR && ByteAt(image, overlay, i) == overlay[s][i - s * SECTOR]
    ensures s !in overlay ==> ByteAt(image, overlay, i) == image[i]
  {
    SectorOf(i, s);
  }

  lemma SectorOf(i: nat, s: nat)
    ensures i / SECTOR == s <==> s * SECTOR <= i < s * SECTOR + SECTOR
    ensures i / SECTOR == s ==> i % SECTOR == i - s * SECTOR
  {
  }

  class Disk {
    const mode: Mode
    /** The size when the image was opened: the disk the guest is told of. */
    const size: nat
    var image: seq<Byte>
    var overlay: map<nat, seq<Byte>>

    ghost predicate Valid()
      reads this
    {
      && (forall s :: s in overlay ==> |overlay[s]| == SECTOR)
      && (mode != Snapshot ==> overlay == map[])
      && size <= |image| && (mode != Persistent ==> |image| == size)
    }

    /** The disk as the guest sees it. */
    ghost function Flat(): (r: seq<Byte>)
      requires Valid()
      reads this
      ensures |r| == size
    {
      Flatten(image[..size], overlay)
    }

    constructor (mode: Mode, image: seq<Byte>)
      ensures Valid() && Flat() == image && this.mode == mode && this.image == image && size == |image|
    {
      this.mode, this.image, overlay, size := mode, image, map[], |image|;
    }

    /** Reads see the flat disk, and in a file that has grown past it what lies there. (Reading nothing
        from past the end of a file succeeds; past the end of a memory image it does not.) */
    method Read(offset: nat, n: nat) returns (ok: bool, dst: seq<Byte>)
      requires Valid()
      ensures ok <==> offset + n <= |image| || (mode != Memory && n == 0)
      ensures ok ==> |dst| == n && forall k :: 0 <= k < n ==>
        dst[k] == if offset + k < size then Flat()[offset + k] else image[offset + k]
    {
      if mode == Memory {
        if offset + n > |image| { return false, []; }
        return true, image[offset..offset + n];
      }
      if n == 0 { return true, []; }
      if offset + n > |image| { return false, []; }
      dst := image[offset..offset + n];
      if mode == Snapshot && overlay != map[] {
        assert image[..size] == image;
        dst := PatchIn(offset, dst);
      }
      return true, dst;
    }

    /** The guest's own writes shadow the file: walk the sectors the request touches and patch in any
        it has overwritten. */
    method PatchIn(offset: nat, buffer: seq<Byte>) returns (dst: seq<Byte>)
      requires Valid() && mode == Snapshot && buffer != [] && offset + |buffer| <= |image|
      requires buffer == image[offset..offset + |buffer|]
      ensures |dst| == |buffer| && forall k :: 0 <= k < |dst| ==> dst[k] == ByteAt(image, overlay, offset + k)
    {
      hide Shadowed, Overlaid, ByteAt;
      dst := buffer;
      var first, last := offset / SECTOR, (offset + |dst| - 1) / SECTOR;
      NoneShadowed(image, overlay, offset, dst, first * SECTOR);
      for s := first to last + 1
        invariant |dst| == |buffer| && Shadowed(image, overlay, offset, dst, s * SECTOR)
      {
        SectorStep(image, overlay, offset, dst, s);
        if s in overlay {
          dst := Overlaid(overlay[s], offset, dst, s * SECTOR);
        }
      }
      AllShadowed(image, overlay, offset, dst, last * SECTOR + SECTOR);
    }

    /** Writes change exactly the bytes written, and in snapshot mode never the image. A write past
        the end fails in memory, extends a file, and is kept out of sight in a snapshot. */
    method Write(offset: nat, src: seq<Byte>) returns (ok: bool)
      requires Valid()
      modifies this
      ensures Valid() && (mode == Snapshot ==> image == old(image))
      ensures mode == Persistent ==> image == FileWritten(old(image), offset, src)
      ensures ok <==> mode != Memory || offset + |src| <= |image|
      ensures !ok ==> Flat() == old(Flat())
      ensures ok ==> forall i :: 0 <= i < size ==>
        Flat()[i] == if offset <= i < offset + |src| then src[i - offset] else old(Flat()[i])
    {
      if mode == Memory {
        if offset + |src| > |image| { return false; }
        image := Patch(image, offset, src);
        return true;
      }
      if mode == Persistent {
        image := FileWritten(image, offset, src);
        return true;
      }
      var pos := 0;
      while pos < |src|
        invariant pos <= |src| && Valid() && image == old(image)
        invariant forall i :: 0 <= i < size ==>
          Flat()[i] == if offset <= i < offset + pos then src[i - offset] else old(Flat()[i])
      {
        var s, within := (offset + pos) / SECTOR, (offset + pos) % SECTOR;
        var n := Min(SECTOR - within, |src| - pos);
        if s !in overlay {
          Seed(s, n);
        }
        WriteSector(s, within, src[pos..pos + n]);
        pos := pos + n;
      }
      return true;
    }

    /** Bring a sector into the overlay. One about to be overwritten whole need not be read. Only bytes
        that exist are asked for, so the read cannot fail. */
    method Seed(s: nat, n: nat)
      requires Valid() && mode == Snapshot && s !in overlay && n <= SECTOR
      modifies `overlay
      ensures Valid() && s in overlay && overlay.Keys == old(overlay.Keys) + {s}
      ensures forall i :: 0 <= i < size && (n != SECTOR || i / SECTOR != s) ==> Flat()[i] == old(Flat()[i])
    {
      var sector: seq<Byte> := seq(SECTOR, _ => 0);
      var avail := Min(Max(size, s * SECTOR) - s * SECTOR, SECTOR);
      if n != SECTOR {
        var ok, bytes := Read(s * SECTOR, avail);
        sector := Patch(sector, 0, bytes);
      }
      overlay := overlay[s := sector];
    }

    method WriteSector(s: nat, within: nat, bytes: seq<Byte>)
      requires Valid() && mode == Snapshot && s in overlay && within + |bytes| <= SECTOR
      modifies `overlay
      ensures Valid()
      ensures forall i :: 0 <= i < size ==>
        Flat()[i] == if s * SECTOR + within <= i < s * SECTOR + within + |bytes| then bytes[i - s * SECTOR - within]
                     else old(Flat()[i])
    {
      overlay := overlay[s := Patch(overlay[s], within, bytes)];
    }
  }
}
