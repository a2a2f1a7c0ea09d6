/** Byte strings and little-endian integers. */
module Bytes {

  type Byte = b: nat | b < 256

  function Patch(bytes: seq<Byte>, offset: nat, data: seq<Byte>): (r: seq<Byte>)
    requires offset + |data| <= |bytes|
    ensures |r| == |bytes|
  {
    bytes[..offset] + data + bytes[offset + |data|..]
  }

  lemma PatchApart(bytes: seq<Byte>, offset: nat, data: seq<Byte>, a: nat, n: nat)
    requires offset + |data| <= |bytes| && a + n <= |bytes| && (a + n <= offset || offset + |data| <= a)
    ensures Patch(bytes, offset, data)[a..a + n] == bytes[a..a + n]
  {
  }

  lemma PatchIs(bytes: seq<Byte>, offset: nat, data: seq<Byte>, r: seq<Byte>)
    requires offset + |data| <= |bytes| == |r|
    requires forall i :: 0 <= i < |r| ==> r[i] == if offset <= i < offset + |data| then data[i - offset] else bytes[i]
    ensures r == Patch(bytes, offset, data)
  {
  }

  lemma SliceOfSlice<T>(s: seq<T>, a: nat, b: nat, i: nat, j: nat)
    requires i <= j && a + j <= b <= |s|
    ensures s[a..b][i..j] == s[a + i..a + j]
  {
    assert forall k :: 0 <= k < j - i ==> s[a..b][i..j][k] == s[a..b][i + k] == s[a + i + k];
  }

  function Le(bytes: seq<Byte>): nat {
    if bytes == [] then 0 else bytes[0] as int + 256 * Le(bytes[1..])
  }

  /** The low n bytes of v, least significant first. */
  function LeBytes(v: nat, n: nat): (r: seq<Byte>)
    ensures |r| == n
  {
    if n == 0 then [] else [v % 256] + LeBytes(v / 256, n - 1)
  }

  function Pow256(n: nat): nat { if n == 0 then 1 else 256 * Pow256(n - 1) }

  lemma {:induction false} LeRoundTrip(v: nat, n: nat)
    requires v < Pow256(n)
    ensures Le(LeBytes(v, n)) == v
    decreases n
  {
    if n > 0 {
      LeRoundTrip(v / 256, n - 1);
      assert LeBytes(v, n)[1..] == LeBytes(v / 256, n - 1);
    }
  }

  lemma {:induction false} LeBound(bytes: seq<Byte>)
    ensures Le(bytes) < Pow256(|bytes|)
  {
    if bytes != [] { LeBound(bytes[1..]); }
  }
}
