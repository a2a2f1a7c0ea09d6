/** The device-tree builder: two growing byte vectors (`src/fdt.rs`). */
module FdtBuilder {
  import opened Bytes
  import opened FdtSpec
  import opened Prelude

  /** Several NUL-terminated strings back to back. */
  function StringList(values: seq<seq<Byte>>): seq<Byte> {
    if values == [] then [] else StringList(values[..|values| - 1]) + values[|values| - 1] + [0]
  }

  function Cells(cells: seq<nat>): (r: seq<Byte>)
    ensures |r| == 4 * |cells|
  {
    if cells == [] then [] else Cells(cells[..|cells| - 1]) + Be4(cells[|cells| - 1])
  }

  /** The blob a structure block (with its END token) and a strings block become. */
  function Blob(structure: seq<Byte>, strings: seq<Byte>): seq<Byte> {
    Header(|structure|, |strings|) + Zeros(16) + structure + strings
  }

  function Header(structure: nat, strings: nat): (r: seq<Byte>)
    ensures |r| == 40
  {
    Be4(MAGIC) + Be4(56 + structure + strings) + Be4(56) + Be4(56 + structure) + Be4(40)
    + Be4(17) + Be4(16) + Be4(0) + Be4(strings) + Be4(structure)
  }

  class Builder {
    var structure: seq<Byte>
    var strings: seq<Byte>

    /** The calls made so far, and the tokens they became. */
    ghost var calls: seq<Call>
    ghost var tokens: seq<Token>

    ghost predicate Valid()
      reads this
    {
      structure == EncodeAll(tokens) && SpellsAll(tokens, calls, strings)
    }

    constructor ()
      ensures Valid() && calls == []
    {
      structure, strings, calls, tokens := [], [], [], [];
    }

    /** The offset of a name in the strings block, which grows if it is new. The name may be found
        as the end of a longer one. */
    method Intern(name: seq<Byte>) returns (off: nat)
      modifies `strings
      ensures old(strings) <= strings && StringAt(strings, off, name)
      ensures strings == old(strings) || strings == old(strings) + (name + [0])
      ensures strings != old(strings) ==>
        forall i :: 0 <= i && i + |name| < |old(strings)| ==> !StringAt(old(strings), i, name)
    {
      hide StringAt;
      var needle := name + [0];
      if |strings| >= |needle| {
        for i := 0 to |strings| - |needle| + 1
          invariant strings == old(strings)
          invariant forall k :: 0 <= k < i ==> !StringAt(strings, k, name)
        {
          Matches(strings, i, name);
          if strings[i..i + |needle|] == needle { return i; }
        }
      }
      off := |strings|;
      Appended(strings, name);
      strings := strings + needle;
    }

    /** Zeros up to a multiple of four. */
    method PadTo4()
      modifies `structure
      ensures structure == old(structure) + Zeros(Align(|old(structure)|) - |old(structure)|)
    {
      hide Align, Zeros;
      NoZeros(structure);
      while |structure| % 4 != 0
        invariant |old(structure)| <= |structure| <= Align(|old(structure)|)
        invariant structure == old(structure) + Zeros(|structure| - |old(structure)|)
        decreases Align(|old(structure)|) - |structure|
      {
        BelowAligned(|structure|, Align(|old(structure)|));
        OneMoreZero(old(structure), |structure| - |old(structure)|);
        structure := structure + [0];
      }
      AtAligned(|structure|, Align(|old(structure)|));
    }

    /** The structure block has grown by one token: that is one more call made. */
    ghost method Note(t: Token, c: Call, before: seq<Byte>, was: seq<Byte>)
      requires before == EncodeAll(tokens) && SpellsAll(tokens, calls, was) && was <= strings
      requires structure == before + Encode(t) && Spells(t, c, strings)
      modifies `calls, `tokens
      ensures Valid() && calls == old(calls) + [c]
    {
      hide Encode, Spells;
      EncodeAppend(tokens, [t]);
      EncodeOne(t);
      assert was + strings[|was|..] == strings;
      SpellsGrows(tokens, calls, was, strings[|was|..]);
      calls, tokens := calls + [c], tokens + [t];
    }

    method BeginNode(name: seq<Byte>)
      requires Valid() && NulFree(name)
      modifies this
      ensures Valid() && calls == old(calls) + [BeginCall(name)]
    {
      hide SpellsAll, EncodeAll, Align, NulFree, Be4, Zeros;
      EncodeAligned(tokens);
      structure := structure + Be4(BEGIN_NODE);
      structure := structure + name;
      structure := structure + [0];
      AlignFrom(|old(structure)| + 4, |name| + 1);
      PadTo4();
      assert structure == old(structure) + Encode(BeginTok(name));
      Note(BeginTok(name), BeginCall(name), old(structure), old(strings));
    }

    method EndNode()
      requires Valid()
      modifies this
      ensures Valid() && calls == old(calls) + [EndCall]
    {
      hide SpellsAll, EncodeAll, Be4;
      structure := structure + Be4(END_NODE);
      Note(EndTok, EndCall, old(structure), old(strings));
    }

    method PropHeader(name: seq<Byte>, len: nat) returns (ghost off: nat)
      modifies `structure, `strings
      ensures old(strings) <= strings && StringAt(strings, off, name)
      ensures structure == old(structure) + (Be4(PROP) + Be4(len) + Be4(off))
    {
      hide StringAt, Be4;
      var o := Intern(name);
      structure := structure + Be4(PROP);
      structure := structure + Be4(len);
      structure := structure + Be4(o);
      off := o;
    }

    /** The value has been pushed and padded. */
    ghost method NoteProp(name: seq<Byte>, value: seq<Byte>, off: nat, before: seq<Byte>, was: seq<Byte>)
      requires before == EncodeAll(tokens) && SpellsAll(tokens, calls, was) && was <= strings
      requires structure == before + (Be4(PROP) + Be4(|value|) + Be4(off)) + Padded(value)
      requires NulFree(name) && StringAt(strings, off, name)
      modifies `calls, `tokens
      ensures Valid() && calls == old(calls) + [PropCall(name, value)]
    {
      hide SpellsAll, EncodeAll, Be4, NulFree, StringAt, Padded;
      assert structure == before + Encode(PropTok(off, value));
      Note(PropTok(off, value), PropCall(name, value), before, was);
    }

    method PropEmpty(name: seq<Byte>)
      requires Valid() && NulFree(name)
      modifies this
      ensures Valid() && calls == old(calls) + [PropCall(name, [])]
    {
      hide SpellsAll, EncodeAll, Be4, NulFree, StringAt;
      ghost var off := PropHeader(name, 0);
      NoPadding([]);
      NoteProp(name, [], off, old(structure), old(strings));
    }

    method PropU32(name: seq<Byte>, v: nat)
      requires Valid() && NulFree(name)
      modifies this
      ensures Valid() && calls == old(calls) + [PropCall(name, Be4(v))]
    {
      hide SpellsAll, EncodeAll, Be4, NulFree, StringAt, Padded;
      ghost var off := PropHeader(name, 4);
      structure := structure + Be4(v);
      NoPadding(Be4(v));
      NoteProp(name, Be4(v), off, old(structure), old(strings));
    }

    method PropU64(name: seq<Byte>, v: nat)
      requires Valid() && NulFree(name)
      modifies this
      ensures Valid() && calls == old(calls) + [PropCall(name, Be8(v))]
    {
      hide SpellsAll, EncodeAll, Be4, Be8, NulFree, StringAt, Padded;
      ghost var off := PropHeader(name, 8);
      structure := structure + Be8(v);
      NoPadding(Be8(v));
      NoteProp(name, Be8(v), off, old(structure), old(strings));
    }

    method PropReg(name: seq<Byte>, address: nat, size: nat)
      requires Valid() && NulFree(name)
      modifies this
      ensures Valid() && calls == old(calls) + [PropCall(name, Be8(address) + Be8(size))]
    {
      hide SpellsAll, EncodeAll, Be4, Be8, NulFree, StringAt, Padded;
      ghost var off := PropHeader(name, 16);
      structure := structure + Be8(address);
      structure := structure + Be8(size);
      NoPadding(Be8(address) + Be8(size));
      NoteProp(name, Be8(address) + Be8(size), off, old(structure), old(strings));
    }

    method PropBytes(name: seq<Byte>, bytes: seq<Byte>)
      requires Valid() && NulFree(name)
      modifies this
      ensures Valid() && calls == old(calls) + [PropCall(name, bytes)]
    {
      hide SpellsAll, EncodeAll, Be4, NulFree, StringAt, Align, Zeros;
      EncodeAligned(tokens);
      ghost var off := PropHeader(name, |bytes|);
      structure := structure + bytes;
      AlignFrom(|old(structure)| + 12, |bytes|);
      PadTo4();
      NoteProp(name, bytes, off, old(structure), old(strings));
    }

    method PropString(name: seq<Byte>, v: seq<Byte>)
      requires Valid() && NulFree(name)
      modifies this
      ensures Valid() && calls == old(calls) + [PropCall(name, v + [0])]
    {
      PropBytes(name, v + [0]);
    }

    method PropStringList(name: seq<Byte>, values: seq<seq<Byte>>)
      requires Valid() && NulFree(name)
      modifies this
      ensures Valid() && calls == old(calls) + [PropCall(name, StringList(values))]
    {
      hide SpellsAll, EncodeAll, Be4, NulFree, StringAt, Align, Zeros;
      EncodeAligned(tokens);
      ghost var off := PropHeader(name, |StringList(values)|);
      ghost var start := structure;
      for i := 0 to |values|
        modifies `structure
        invariant structure == start + StringList(values[..i])
      {
        assert values[..i + 1][..i] == values[..i];
        structure := structure + values[i];
        structure := structure + [0];
      }
      assert values[..|values|] == values;
      AlignFrom(|old(structure)| + 12, |StringList(values)|);
      PadTo4();
      NoteProp(name, StringList(values), off, old(structure), old(strings));
    }

    method PropCells(name: seq<Byte>, cells: seq<nat>)
      requires Valid() && NulFree(name)
      modifies this
      ensures Valid() && calls == old(calls) + [PropCall(name, Cells(cells))]
    {
      hide SpellsAll, EncodeAll, Be4, NulFree, StringAt, Padded;
      ghost var off := PropHeader(name, 4 * |cells|);
      ghost var start := structure;
      for i := 0 to |cells|
        modifies `structure
        invariant structure == start + Cells(cells[..i])
      {
        assert cells[..i + 1][..i] == cells[..i];
        structure := structure + Be4(cells[i]);
      }
      assert cells[..|cells|] == cells;
      NoPadding(Cells(cells));
      NoteProp(name, Cells(cells), off, old(structure), old(strings));
    }

    /** The blob parses back to the tree that was built, for every balanced sequence of calls. */
    method Finish(ghost f: Forest) returns (out: seq<Byte>)
      requires Valid()
      modifies `structure
      ensures calls == Calls(f) && |out| < U32 ==> Parse(out) == Some(Tree([], f))
      ensures out == Blob(old(structure) + Be4(END), strings)
    {
      hide Be4, Calls, Parse, EncodeAll, SpellsAll, Header;
      structure := structure + Be4(END);
      var reservations: seq<Byte> := [];
      reservations := reservations + Be8(0);
      reservations := reservations + Be8(0);
      var offStructure := 40 + |reservations|;
      var offStrings := offStructure + |structure|;
      var total := offStrings + |strings|;
      out := Be4(MAGIC);
      out := out + Be4(total);
      out := out + Be4(offStructure);
      out := out + Be4(offStrings);
      out := out + Be4(40);
      out := out + Be4(17);
      out := out + Be4(16);
      out := out + Be4(0);
      out := out + Be4(|strings|);
      out := out + Be4(|structure|);
      HeaderIs(out, |structure|, |strings|);
      NoReservations();
      out := out + reservations;
      out := out + structure;
      out := out + strings;
      assert out == Blob(EncodeAll(tokens) + Be4(END), strings);
      if calls == Calls(f) && |out| < U32 {
        RoundTrip(f, tokens, strings);
      }
    }
  }

  lemma HeaderIs(out: seq<Byte>, structure: nat, strings: nat)
    requires out == Be4(MAGIC) + Be4(56 + structure + strings) + Be4(56) + Be4(56 + structure) + Be4(40)
                    + Be4(17) + Be4(16) + Be4(0) + Be4(strings) + Be4(structure)
    ensures out == Header(structure, strings)
  {
  }

  lemma NoReservations()
    ensures Be8(0) + Be8(0) == Zeros(16)
  {
  }

  /** Where everything is in a blob. */
  lemma BlobLaid(structure: seq<Byte>, strings: seq<Byte>)
    requires |Blob(structure, strings)| < U32
    ensures var b := Blob(structure, strings);
            && |b| == 56 + |structure| + |strings|
            && Word(b, 0) == 0xd00d_feed && Word(b, 4) == |b| && Word(b, 8) == 56
            && Word(b, 12) == 56 + |structure| && Word(b, 16) == 40
            && Word(b, 20) == 17 && Word(b, 24) == 16 && Word(b, 28) == 0
            && Word(b, 32) == |strings| && Word(b, 36) == |structure|
            && Has(b, 40, Zeros(16)) && Has(b, 56, structure) && Has(b, 56 + |structure|, strings)
  {
    hide Be4, Word;
    var n, m := |structure|, |strings|;
    var b := Blob(structure, strings);
    var h := Header(n, m);
    assert b[..40] == h;
    assert Has(b, 40, Zeros(16)) && Has(b, 56, structure) && Has(b, 56 + n, strings);
    HeaderWord(b, h, 0, MAGIC);
    HeaderWord(b, h, 4, 56 + n + m);
    HeaderWord(b, h, 8, 56);
    HeaderWord(b, h, 12, 56 + n);
    HeaderWord(b, h, 16, 40);
    HeaderWord(b, h, 20, 17);
    HeaderWord(b, h, 24, 16);
    HeaderWord(b, h, 28, 0);
    HeaderWord(b, h, 32, m);
    HeaderWord(b, h, 36, n);
  }

  lemma HeaderWord(b: seq<Byte>, h: seq<Byte>, p: nat, v: nat)
    requires |h| == 40 <= |b| && b[..40] == h && p + 4 <= 40 && h[p..p + 4] == Be4(v) && v < U32
    ensures Word(b, p) == v
  {
    hide Be4, Word;
    assert b[p..p + 4] == b[..40][p..p + 4];
    WordOfBe4(b, p, v);
  }

  /** The round trip. */
  lemma RoundTrip(f: Forest, ts: seq<Token>, strings: seq<Byte>)
    requires SpellsAll(ts, Calls(f), strings) && |Blob(EncodeAll(ts) + Be4(END), strings)| < U32
    ensures Parse(Blob(EncodeAll(ts) + Be4(END), strings)) == Some(Tree([], f))
  {
    hide Be4, Word, Blob, SpellsAll, Calls, EncodeAll, ParseForest, ParseReservations, Has;
    var structure := EncodeAll(ts) + Be4(END);
    var b := Blob(structure, strings);
    BlobLaid(structure, strings);
    HasBoth(b, 56, EncodeAll(ts), Be4(END));
    EndWord(b, 56 + |EncodeAll(ts)|);
    ParseBack(b, 56, 56 + |structure|, strings, f, ts);
    ZeroReservations(b);
  }

  lemma EndWord(b: seq<Byte>, p: nat)
    requires Has(b, p, Be4(END))
    ensures p + 4 <= |b| && Word(b, p) == END
  {
    hide Be4, Word;
    WordOfBe4(b, p, END);
  }

  lemma ZeroReservations(b: seq<Byte>)
    requires Has(b, 40, Zeros(16))
    ensures ParseReservations(b, 40) == Some([])
  {
    forall i | 40 <= i < 56 ensures b[i] == 0 {
      assert b[40..56][i - 40] == b[i];
    }
  }

  lemma NoPadding(s: seq<Byte>)
    requires |s| % 4 == 0
    ensures Padded(s) == s
  {
    assert Align(|s|) == |s|;
  }

  lemma NoZeros(s: seq<Byte>)
    ensures s == s + Zeros(|s| - |s|)
  {
  }

  lemma OneMoreZero(s: seq<Byte>, n: nat)
    ensures (s + Zeros(n)) + [0] == s + Zeros(n + 1)
  {
    assert Zeros(n) + [0] == Zeros(n + 1);
  }

  lemma BelowAligned(n: nat, a: nat)
    requires n <= a && a % 4 == 0 && n % 4 != 0
    ensures n + 1 <= a
  {
  }

  lemma AtAligned(n: nat, a: nat)
    requires n <= a < n + 4 && a % 4 == 0 && n % 4 == 0
    ensures n == a
  {
  }

  lemma Matches(strings: seq<Byte>, i: nat, name: seq<Byte>)
    requires i + |name| + 1 <= |strings|
    ensures StringAt(strings, i, name) <==> strings[i..i + |name| + 1] == name + [0]
  {
    var w := strings[i..i + |name| + 1];
    assert w == strings[i..i + |name|] + [strings[i + |name|]];
    assert w[..|name|] == strings[i..i + |name|] && w[|name|] == strings[i + |name|];
    assert (name + [0])[..|name|] == name && (name + [0])[|name|] == 0;
  }

  lemma Appended(strings: seq<Byte>, name: seq<Byte>)
    ensures StringAt(strings + (name + [0]), |strings|, name)
  {
    var s := strings + (name + [0]);
    assert s[|strings|..|strings| + |name|] == name;
  }
}
