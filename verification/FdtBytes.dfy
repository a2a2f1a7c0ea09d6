/** The flattened tree byte by byte: the numbers, tokens and values that the builder writes (sections
    5.2 to 5.5 of the Devicetree Specification). */
module FdtBytes {
  import opened Bytes
  import opened FdtSpec
  import opened FdtBuilder

  /** Numbers are big-endian. */
  lemma Be4Means(a: Byte, b: Byte, c: Byte, d: Byte)
    ensures Be4(((a as int * 256 + b as int) * 256 + c as int) * 256 + d as int) == [a, b, c, d]
  {
    var x: nat := a as int * 256 + b as int;
    var y: nat := x * 256 + c as int;
    var z: nat := y * 256 + d as int;
    Peel(a, b);
    Peel(x, c);
    Peel(y, d);
    assert z / 0x1_0000 == z / 256 / 256 && z / 0x100_0000 == z / 256 / 256 / 256;
  }

  lemma Peel(x: nat, b: Byte)
    ensures (x * 256 + b as int) / 256 == x && (x * 256 + b as int) % 256 == b as int
  {
  }

  lemma Be8Means(high: nat, low: nat)
    requires high < 0x1_0000_0000 && low < 0x1_0000_0000
    ensures Be8(0x1_0000_0000 * high + low) == Be4(high) + Be4(low)
  {
    hide Be4;
  }

  /** The magic number is d0 0d fe ed; a node begins with 1, its name and a NUL, and ends with 2; a
      property is 3, the length and the name's offset, and its value; 9 ends the tree. */
  lemma TokenBytes(name: seq<Byte>, off: nat, value: seq<Byte>)
    ensures Be4(MAGIC) == [0xd0, 0x0d, 0xfe, 0xed] && Be4(END) == [0, 0, 0, 9]
    ensures Encode(EndTok) == [0, 0, 0, 2]
    ensures Filled(Encode(BeginTok(name)), [0, 0, 0, 1] + name + [0])
    ensures Filled(Encode(PropTok(off, value)), [0, 0, 0, 3] + Be4(|value|) + Be4(off) + value)
  {
    PadsOut(Be4(1), name + [0]);
    assert Be4(1) + (name + [0]) == [0, 0, 0, 1] + name + [0];
    PadsOut(Be4(3) + Be4(|value|) + Be4(off), value);
    assert Be4(3) + Be4(|value|) + Be4(off) == [0, 0, 0, 3] + Be4(|value|) + Be4(off);
  }

  /** s with zeros up to the next multiple of four. */
  ghost predicate Filled(r: seq<Byte>, s: seq<Byte>) {
    s <= r && |r| % 4 == 0 && |r| < |s| + 4 && forall i :: |s| <= i < |r| ==> r[i] == 0
  }

  lemma PadsOut(head: seq<Byte>, s: seq<Byte>)
    requires |head| % 4 == 0
    ensures Filled(head + Padded(s), head + s)
  {
    hide Align;
    assert head + Padded(s) == head + s + Zeros(Align(|s|) - |s|);
  }

  /** Cells are four bytes each, in order. */
  lemma {:induction false} CellsMean(cells: seq<nat>, k: nat)
    requires k < |cells|
    ensures Cells(cells)[4 * k..4 * k + 4] == Be4(cells[k])
    decreases |cells|
  {
    hide Be4;
    var init := cells[..|cells| - 1];
    if k < |cells| - 1 {
      CellsMean(init, k);
      assert Cells(cells)[4 * k..4 * k + 4] == Cells(init)[4 * k..4 * k + 4];
    }
  }

  /** Where the k-th of some strings is, each followed by a NUL. */
  ghost function StartOf(values: seq<seq<Byte>>, k: nat): nat
    requires k <= |values|
  {
    if k == 0 then 0 else StartOf(values, k - 1) + |values[k - 1]| + 1
  }

  lemma {:induction false} StartsAlike(values: seq<seq<Byte>>, k: nat)
    requires k < |values|
    ensures StartOf(values[..|values| - 1], k) == StartOf(values, k)
    decreases k
  {
    if k > 0 { StartsAlike(values, k - 1); }
  }

  lemma StringListStep(values: seq<seq<Byte>>)
    requires values != []
    ensures var n := |values| - 1; StringList(values) == StringList(values[..n]) + (values[n] + [0])
  {
    var n := |values| - 1;
    assert StringList(values[..n]) + values[n] + [0] == StringList(values[..n]) + (values[n] + [0]);
  }

  lemma {:induction false} StringListSize(values: seq<seq<Byte>>)
    ensures |StringList(values)| == StartOf(values, |values|)
    decreases |values|
  {
    if values != [] {
      StringListSize(values[..|values| - 1]);
      StartsAlike(values, |values| - 1);
    }
  }

  /** String lists hold their strings one after another. */
  lemma {:induction false} StringListMeans(values: seq<seq<Byte>>, k: nat)
    requires k < |values|
    ensures StringAt(StringList(values), StartOf(values, k), values[k])
    decreases |values|
  {
    hide StringAt, StringList, StartOf;
    var n := |values| - 1;
    var front, last := StringList(values[..n]), values[n];
    StringListStep(values);
    StartsAlike(values, k);
    if k < n {
      StringListMeans(values[..n], k);
      StillThere(front, last + [0], StartOf(values, k), values[k]);
    } else {
      StringListSize(values[..n]);
      AtEnd(front, last);
    }
  }

  lemma StillThere(front: seq<Byte>, more: seq<Byte>, p: nat, s: seq<Byte>)
    requires StringAt(front, p, s)
    ensures StringAt(front + more, p, s)
  {
    assert (front + more)[p..p + |s|] == front[p..p + |s|];
  }

  lemma AtEnd(front: seq<Byte>, last: seq<Byte>)
    ensures StringAt(front + (last + [0]), |front|, last)
  {
    assert (front + (last + [0]))[|front|..|front| + |last|] == last;
  }
}
