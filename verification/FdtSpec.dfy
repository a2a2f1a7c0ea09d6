/** The flattened device tree format (sections 5.4 and 5.5 of the Devicetree Specification): a
    parser for it, and the token stream that a sequence of builder calls stands for. */
module FdtSpec {
  import opened Bytes
  import opened Prelude

  const U32: nat := 0x1_0000_0000
  const MAGIC: nat := 0xd00d_feed
  const BEGIN_NODE: nat := 1
  const END_NODE: nat := 2
  const PROP: nat := 3
  const END: nat := 9

  /** What a node holds, in order: properties and child nodes. */
  datatype Forest =
    | Nil
    | Prop(name: seq<Byte>, value: seq<Byte>, rest: Forest)
    | Node(name: seq<Byte>, body: Forest, rest: Forest)

  // --- numbers, strings and padding -------------------------------------------------------------

  /** The low 32 bits of v, most significant byte first. */
  function Be4(v: nat): (r: seq<Byte>)
    ensures |r| == 4
  {
    [v / 0x100_0000 % 256, v / 0x1_0000 % 256, v / 0x100 % 256, v % 256]
  }

  function Be8(v: nat): (r: seq<Byte>)
    ensures |r| == 8
  {
    Be4(v / U32) + Be4(v % U32)
  }

  /** The 32-bit number at p. */
  function Word(b: seq<Byte>, p: nat): nat
    requires p + 4 <= |b|
  {
    b[p] as int * 0x100_0000 + b[p + 1] as int * 0x1_0000 + b[p + 2] as int * 0x100 + b[p + 3] as int
  }

  lemma WordOfBe4(b: seq<Byte>, p: nat, v: nat)
    requires p + 4 <= |b| && b[p..p + 4] == Be4(v) && v < U32
    ensures Word(b, p) == v
  {
    var x := b[p..p + 4];
    assert x[0] == b[p] && x[1] == b[p + 1] && x[2] == b[p + 2] && x[3] == b[p + 3];
    FourBytes(v);
  }

  lemma FourBytes(v: nat)
    requires v < U32
    ensures v == v / 0x100_0000 % 256 * 0x100_0000 + v / 0x1_0000 % 256 * 0x1_0000 + v / 0x100 % 256 * 0x100 + v % 256
  {
    var a := v / 256;
    var b := a / 256;
    var c := b / 256;
    assert v / 0x1_0000 == b && v / 0x100_0000 == c && c < 256;
    assert v == 256 * a + v % 256 && a == 256 * b + a % 256 && b == 256 * c + b % 256;
  }

  /** The string from p to the next NUL, which must come before the end. */
  function CString(b: seq<Byte>, p: nat): (r: Option<seq<Byte>>)
    ensures r.Some? ==> p + |r.value| < |b|
    decreases |b| - p
  {
    if p >= |b| then None
    else if b[p] == 0 then Some([])
    else match CString(b, p + 1)
      case None => None
      case Some(s) => Some([b[p]] + s)
  }

  predicate NulFree(s: seq<Byte>) { forall i :: 0 <= i < |s| ==> s[i] != 0 }

  /** A NUL-terminated string at p. */
  predicate StringAt(b: seq<Byte>, p: nat, s: seq<Byte>) { p + |s| < |b| && b[p..p + |s|] == s && b[p + |s|] == 0 }

  lemma {:induction false} CStringReads(b: seq<Byte>, p: nat, s: seq<Byte>)
    requires StringAt(b, p, s) && NulFree(s)
    ensures CString(b, p) == Some(s)
    decreases |s|
  {
    if s != [] {
      assert b[p] == b[p..p + |s|][0];
      assert b[p + 1..p + 1 + |s[1..]|] == b[p..p + |s|][1..];
      CStringReads(b, p + 1, s[1..]);
      assert [s[0]] + s[1..] == s;
    }
  }

  function Align(n: nat): (r: nat)
    ensures n <= r < n + 4 && r % 4 == 0
  {
    (n + 3) / 4 * 4
  }

  function Zeros(n: nat): (r: seq<Byte>)
    ensures |r| == n
  {
    seq(n, _ => 0)
  }

  function Padded(s: seq<Byte>): (r: seq<Byte>)
    ensures |r| == Align(|s|)
  {
    s + Zeros(Align(|s|) - |s|)
  }

  // --- the parser -----------------------------------------------------------------------------------

  datatype Parsed = Parsed(forest: Forest, next: nat)

  /** Properties and nodes from p up to an END_NODE or END token, which is left for the caller.
      Property names are found at `strings`. */
  function ParseForest(b: seq<Byte>, p: nat, strings: nat): (r: Option<Parsed>)
    ensures r.Some? ==> p <= r.value.next && r.value.next + 4 <= |b|
    decreases |b| - p
  {
    if p + 4 > |b| then None
    else if Word(b, p) == END_NODE || Word(b, p) == END then Some(Parsed(Nil, p))
    else if Word(b, p) == PROP then ParseProp(b, p, strings)
    else if Word(b, p) == BEGIN_NODE then ParseNode(b, p, strings)
    else None
  }

  function ParseProp(b: seq<Byte>, p: nat, strings: nat): (r: Option<Parsed>)
    requires p + 4 <= |b|
    ensures r.Some? ==> p <= r.value.next && r.value.next + 4 <= |b|
    decreases |b| - p, 0
  {
    if p + 12 > |b| then None
    else
      var len, name := Word(b, p + 4), CString(b, strings + Word(b, p + 8));
      if p + 12 + len > |b| || name.None? then None
      else match ParseForest(b, Align(p + 12 + len), strings)
        case None => None
        case Some(rest) => Some(Parsed(Prop(name.value, b[p + 12..p + 12 + len], rest.forest), rest.next))
  }

  function ParseNode(b: seq<Byte>, p: nat, strings: nat): (r: Option<Parsed>)
    requires p + 4 <= |b|
    ensures r.Some? ==> p <= r.value.next && r.value.next + 4 <= |b|
    decreases |b| - p, 0
  {
    match CString(b, p + 4)
    case None => None
    case Some(name) =>
      match ParseForest(b, Align(p + 4 + |name| + 1), strings)
      case None => None
      case Some(body) =>
        if Word(b, body.next) != END_NODE then None
        else match ParseForest(b, body.next + 4, strings)
          case None => None
          case Some(rest) => Some(Parsed(Node(name, body.forest, rest.forest), rest.next))
  }

  /** Memory reservations from p: pairs of 64-bit numbers up to an all-zero pair. */
  function ParseReservations(b: seq<Byte>, p: nat): Option<seq<(nat, nat)>>
    decreases |b| - p
  {
    if p + 16 > |b| then None
    else
      var addr, size := Word(b, p) * U32 + Word(b, p + 4), Word(b, p + 8) * U32 + Word(b, p + 12);
      if addr == 0 && size == 0 then Some([])
      else match ParseReservations(b, p + 16)
        case None => None
        case Some(rest) => Some([(addr, size)] + rest)
  }

  datatype Tree = Tree(reservations: seq<(nat, nat)>, forest: Forest)

  /** A whole blob: the header says where everything is. */
  function Parse(b: seq<Byte>): Option<Tree> {
    if |b| < 40 || Word(b, 0) != MAGIC || Word(b, 4) != |b| || Word(b, 20) < 16 || Word(b, 24) > 17 then None
    else
      var structure, strings, reserved := Word(b, 8), Word(b, 12), Word(b, 16);
      if structure + Word(b, 36) > |b| || strings + Word(b, 32) > |b| || structure % 4 != 0 then None
      else match ParseForest(b, structure, strings)
        case None => None
        case Some(r) =>
          if Word(b, r.next) != END || r.next + 4 != structure + Word(b, 36) then None
          else match ParseReservations(b, reserved)
            case None => None
            case Some(rs) => Some(Tree(rs, r.forest))
  }

  // --- builder calls and their tokens ------------------------------------------------------------

  datatype Call = BeginCall(name: seq<Byte>) | PropCall(name: seq<Byte>, value: seq<Byte>) | EndCall

  /** The calls that build a forest. */
  function Calls(f: Forest): seq<Call> {
    match f
    case Nil => []
    case Prop(name, value, rest) => [PropCall(name, value)] + Calls(rest)
    case Node(name, body, rest) => [BeginCall(name)] + (Calls(body) + ([EndCall] + Calls(rest)))
  }

  /** With d nodes open: none is closed that is not open, and none is left open. */
  predicate Balanced(cs: seq<Call>, d: nat) {
    if cs == [] then d == 0
    else match cs[0]
      case BeginCall(_) => Balanced(cs[1..], d + 1)
      case PropCall(_, _) => Balanced(cs[1..], d)
      case EndCall => d > 0 && Balanced(cs[1..], d - 1)
  }

  /** Every balanced sequence of calls builds a forest. */
  lemma {:induction false} BalancedBuilds(cs: seq<Call>, d: nat) returns (f: Forest, rest: seq<Call>)
    requires Balanced(cs, d)
    ensures cs == Calls(f) + rest
    ensures if d == 0 then rest == [] else rest != [] && rest[0] == EndCall && Balanced(rest[1..], d - 1)
    decreases |cs|
  {
    if cs == [] || cs[0].EndCall? {
      return Nil, cs;
    }
    if cs[0].PropCall? {
      f, rest := BalancedBuilds(cs[1..], d);
      f := Prop(cs[0].name, cs[0].value, f);
      assert cs == [cs[0]] + cs[1..];
      return;
    }
    hide Balanced;
    var body, after := BalancedBuilds(cs[1..], d + 1);
    var tail;
    tail, rest := BalancedBuilds(after[1..], d);
    f := Node(cs[0].name, body, tail);
    Rejoin(cs, Calls(body), after, EndCall, Calls(tail), rest);
  }

  lemma Rejoin<T>(cs: seq<T>, x: seq<T>, after: seq<T>, e: T, y: seq<T>, rest: seq<T>)
    requires cs != [] && cs[1..] == x + after && after != [] && after[0] == e && after[1..] == y + rest
    ensures cs == [cs[0]] + (x + ([e] + y)) + rest
  {
    assert cs == [cs[0]] + cs[1..] && after == [e] + after[1..];
  }

  datatype Token = BeginTok(name: seq<Byte>) | PropTok(off: nat, value: seq<Byte>) | EndTok

  function Encode(t: Token): seq<Byte> {
    match t
    case BeginTok(name) => Be4(BEGIN_NODE) + Padded(name + [0])
    case PropTok(off, value) => Be4(PROP) + Be4(|value|) + Be4(off) + Padded(value)
    case EndTok => Be4(END_NODE)
  }

  function EncodeAll(ts: seq<Token>): seq<Byte> {
    if ts == [] then [] else Encode(ts[0]) + EncodeAll(ts[1..])
  }

  /** A token says what a call said, given the strings block. */
  predicate Spells(t: Token, c: Call, strings: seq<Byte>) {
    match c
    case BeginCall(name) => t == BeginTok(name) && NulFree(name)
    case PropCall(name, value) => t.PropTok? && t.value == value && NulFree(name) && StringAt(strings, t.off, name)
    case EndCall => t == EndTok
  }

  ghost predicate SpellsAll(ts: seq<Token>, cs: seq<Call>, strings: seq<Byte>) {
    |ts| == |cs| && forall i {:trigger ts[i]} {:trigger cs[i]} :: 0 <= i < |ts| ==> Spells(ts[i], cs[i], strings)
  }

  lemma {:induction false} EncodeAppend(a: seq<Token>, b: seq<Token>)
    ensures EncodeAll(a + b) == EncodeAll(a) + EncodeAll(b)
  {
    hide Encode;
    if a == [] {
      assert a + b == b;
    } else {
      hide EncodeAll;
      EncodeAppend(a[1..], b);
      EncodeFirst(a);
      EncodeFirst(a + b);
      TailOf(a, b);
      Regroup(Encode(a[0]), EncodeAll(a[1..]), EncodeAll(b));
    }
  }

  lemma TailOf<T>(a: seq<T>, b: seq<T>)
    requires a != []
    ensures a + b != [] && (a + b)[0] == a[0] && (a + b)[1..] == a[1..] + b
  {
  }

  lemma Regroup<T>(x: seq<T>, y: seq<T>, z: seq<T>)
    ensures x + (y + z) == x + y + z
  {
  }

  lemma {:induction false} EncodeAligned(ts: seq<Token>)
    ensures |EncodeAll(ts)| % 4 == 0
  {
    hide Encode;
    if ts != [] {
      hide EncodeAll;
      EncodeAligned(ts[1..]);
      TokenAligned(ts[0]);
      EncodeLength(ts);
    }
  }

  lemma EncodeLength(ts: seq<Token>)
    requires ts != []
    ensures |EncodeAll(ts)| == |Encode(ts[0])| + |EncodeAll(ts[1..])|
  {
    hide Encode;
  }

  lemma TokenAligned(t: Token)
    ensures |Encode(t)| % 4 == 0
  {
    hide Be4, Align, Zeros;
  }

  lemma EncodeOne(t: Token)
    ensures EncodeAll([t]) == Encode(t)
  {
    hide Encode;
    assert [t][1..] == [];
  }

  /** Growing the strings block keeps every name where it was. */
  lemma SpellsGrows(ts: seq<Token>, cs: seq<Call>, strings: seq<Byte>, more: seq<Byte>)
    requires SpellsAll(ts, cs, strings)
    ensures SpellsAll(ts, cs, strings + more)
  {
    forall i {:trigger ts[i]} | 0 <= i < |ts| ensures Spells(ts[i], cs[i], strings + more) {
      if cs[i].PropCall? { StringGrows(strings, more, ts[i].off, cs[i].name); }
    }
  }

  lemma StringGrows(strings: seq<Byte>, more: seq<Byte>, p: nat, s: seq<Byte>)
    requires StringAt(strings, p, s)
    ensures StringAt(strings + more, p, s)
  {
    assert (strings + more)[p..p + |s|] == strings[p..p + |s|];
  }

  // --- parsing gives back what was built -----------------------------------------------------------

  predicate Has(b: seq<Byte>, p: nat, x: seq<Byte>) { p + |x| <= |b| && b[p..p + |x|] == x }

  lemma HasBoth(b: seq<Byte>, p: nat, x: seq<Byte>, y: seq<Byte>)
    requires Has(b, p, x + y)
    ensures Has(b, p, x) && Has(b, p + |x|, y)
  {
    assert b[p..p + |x|] == b[p..p + |x + y|][..|x|];
    assert b[p + |x|..p + |x| + |y|] == b[p..p + |x + y|][|x|..];
  }

  lemma AlignFrom(p: nat, n: nat)
    requires p % 4 == 0
    ensures Align(p + n) == p + Align(n)
  {
  }

  lemma PropHead(b: seq<Byte>, p: nat, off: nat, value: seq<Byte>)
    requires Has(b, p, Encode(PropTok(off, value))) && off < U32 && |b| < U32
    ensures p + 12 + |value| <= |b| && Word(b, p) == PROP && Word(b, p + 4) == |value| && Word(b, p + 8) == off
    ensures b[p + 12..p + 12 + |value|] == value && |Encode(PropTok(off, value))| == 12 + Align(|value|)
  {
    hide Be4, Word, Align, Zeros;
    HasBoth(b, p, Be4(PROP) + Be4(|value|) + Be4(off), Padded(value));
    HasBoth(b, p, Be4(PROP) + Be4(|value|), Be4(off));
    HasBoth(b, p, Be4(PROP), Be4(|value|));
    HasBoth(b, p + 12, value, Zeros(Align(|value|) - |value|));
    WordOfBe4(b, p, PROP);
    WordOfBe4(b, p + 4, |value|);
    WordOfBe4(b, p + 8, off);
  }

  lemma BeginHead(b: seq<Byte>, p: nat, name: seq<Byte>)
    requires Has(b, p, Encode(BeginTok(name)))
    ensures p + 4 <= |b| && Word(b, p) == BEGIN_NODE && StringAt(b, p + 4, name)
    ensures |Encode(BeginTok(name))| == 4 + Align(|name| + 1)
  {
    hide Be4, Word, Align, Zeros;
    HasBoth(b, p, Be4(BEGIN_NODE), Padded(name + [0]));
    HasBoth(b, p + 4, name + [0], Zeros(Align(|name| + 1) - (|name| + 1)));
    WordOfBe4(b, p, BEGIN_NODE);
    HasString(b, p + 4, name);
  }

  lemma HasString(b: seq<Byte>, p: nat, name: seq<Byte>)
    requires Has(b, p, name + [0])
    ensures StringAt(b, p, name)
  {
    HasBoth(b, p, name, [0]);
    assert b[p + |name|..p + |name| + 1][0] == 0;
  }

  lemma StringInside(b: seq<Byte>, strings: nat, block: seq<Byte>, off: nat, name: seq<Byte>)
    requires Has(b, strings, block) && StringAt(block, off, name)
    ensures StringAt(b, strings + off, name)
  {
    assert block == b[strings..strings + |block|];
    forall i | 0 <= i < |name| ensures b[strings + off..strings + off + |name|][i] == name[i] {
      assert block[off..off + |name|][i] == block[off + i];
    }
  }

  /** The tokens of a forest, followed by an end token, parse to that forest. */
  lemma {:induction false} ParseBack(b: seq<Byte>, p: nat, strings: nat, block: seq<Byte>, f: Forest, ts: seq<Token>)
    requires SpellsAll(ts, Calls(f), block) && Has(b, strings, block) && Has(b, p, EncodeAll(ts)) && |b| < U32
    requires p % 4 == 0
    requires p + |EncodeAll(ts)| + 4 <= |b|
    requires Word(b, p + |EncodeAll(ts)|) == END_NODE || Word(b, p + |EncodeAll(ts)|) == END
    ensures ParseForest(b, p, strings) == Some(Parsed(f, p + |EncodeAll(ts)|))
    decreases f
  {
    hide Encode, Word, Spells, StringAt, NulFree, Has, Align, CString;
    match f
    case Nil =>
    case Prop(name, value, rest) =>
      PropBack(b, p, strings, block, name, value, rest, ts);
    case Node(name, body, rest) =>
      NodeBack(b, p, strings, block, name, body, rest, ts);
  }

  lemma PropBack(b: seq<Byte>, p: nat, strings: nat, block: seq<Byte>, name: seq<Byte>, value: seq<Byte>,
                 rest: Forest, ts: seq<Token>)
    requires var f := Prop(name, value, rest); SpellsAll(ts, Calls(f), block)
    requires Has(b, strings, block) && Has(b, p, EncodeAll(ts)) && |b| < U32 && p % 4 == 0
    requires p + |EncodeAll(ts)| + 4 <= |b|
    requires Word(b, p + |EncodeAll(ts)|) == END_NODE || Word(b, p + |EncodeAll(ts)|) == END
    ensures ParseForest(b, p, strings) == Some(Parsed(Prop(name, value, rest), p + |EncodeAll(ts)|))
    decreases Prop(name, value, rest), 0
  {
    hide Encode, Word, StringAt, NulFree, Has, Align, CString, EncodeAll, ParseForest;
    var cs := Calls(Prop(name, value, rest));
    assert cs[0] == PropCall(name, value) && cs[1..] == Calls(rest);
    SpellsFrom(ts, cs, block, 0);
    SpellsFrom(ts, cs, block, 1);
    var t := ts[0];
    assert Spells(t, cs[0], block);
    EncodeFirst(ts);
    HasBoth(b, p, Encode(t), EncodeAll(ts[1..]));
    OffsetFits(b, strings, block, t.off, name);
    PropHead(b, p, t.off, value);
    AlignFrom(p, 12 + |value|);
    AlignFrom(12, |value|);
    StringInside(b, strings, block, t.off, name);
    CStringReads(b, strings + t.off, name);
    ParseBack(b, p + |Encode(t)|, strings, block, rest, ts[1..]);
    PropThen(b, p, strings, name, value, rest, p + |EncodeAll(ts)|);
  }

  lemma PropThen(b: seq<Byte>, p: nat, strings: nat, name: seq<Byte>, value: seq<Byte>, rest: Forest, next: nat)
    requires p + 12 + |value| <= |b| && Word(b, p) == PROP && Word(b, p + 4) == |value|
    requires CString(b, strings + Word(b, p + 8)) == Some(name) && b[p + 12..p + 12 + |value|] == value
    requires ParseForest(b, Align(p + 12 + |value|), strings) == Some(Parsed(rest, next))
    ensures ParseForest(b, p, strings) == Some(Parsed(Prop(name, value, rest), next))
  {
    hide Word, Align, CString;
  }

  lemma NodeBack(b: seq<Byte>, p: nat, strings: nat, block: seq<Byte>, name: seq<Byte>, body: Forest, rest: Forest,
                 ts: seq<Token>)
    requires var f := Node(name, body, rest); SpellsAll(ts, Calls(f), block)
    requires Has(b, strings, block) && Has(b, p, EncodeAll(ts)) && |b| < U32 && p % 4 == 0
    requires p + |EncodeAll(ts)| + 4 <= |b|
    requires Word(b, p + |EncodeAll(ts)|) == END_NODE || Word(b, p + |EncodeAll(ts)|) == END
    ensures ParseForest(b, p, strings) == Some(Parsed(Node(name, body, rest), p + |EncodeAll(ts)|))
    decreases Node(name, body, rest), 0
  {
    hide Encode, Word, StringAt, NulFree, Has, Align, CString, EncodeAll, SpellsAll, Calls, ParseProp;
    var inner, after := NodeSplit(ts, block, name, body, rest);
    NodeEncodes(name, inner, after);
    NodeLaid(b, p, name, inner, after);
    var q := p + |Encode(BeginTok(name))|;
    var e := q + |EncodeAll(inner)|;
    AlignFrom(p, 4 + (|name| + 1));
    AlignFrom(4, |name| + 1);
    CStringReads(b, p + 4, name);
    ParseBack(b, q, strings, block, body, inner);
    ParseBack(b, e + 4, strings, block, rest, after);
  }

  lemma NodeSplit(ts: seq<Token>, block: seq<Byte>, name: seq<Byte>, body: Forest, rest: Forest)
    returns (inner: seq<Token>, after: seq<Token>)
    requires SpellsAll(ts, Calls(Node(name, body, rest)), block)
    ensures ts == [BeginTok(name)] + (inner + ([EndTok] + after)) && NulFree(name)
    ensures SpellsAll(inner, Calls(body), block) && SpellsAll(after, Calls(rest), block)
  {
    hide StringAt;
    var cs, n := Calls(Node(name, body, rest)), |Calls(body)|;
    Cut(BeginCall(name), Calls(body), EndCall, Calls(rest));
    inner, after := ts[1..1 + n], ts[2 + n..];
    Uncut(ts, n);
    SpellsSlice(ts, cs, block, 1, 1 + n);
    SpellsFrom(ts, cs, block, 2 + n);
    assert Spells(ts[0], cs[0], block) && Spells(ts[1 + n], cs[1 + n], block);
  }

  lemma Cut<T>(a: T, x: seq<T>, b: T, y: seq<T>)
    ensures var s := [a] + (x + ([b] + y)); var n := |x|;
            |s| == n + 2 + |y| && s[0] == a && s[1..1 + n] == x && s[1 + n] == b && s[2 + n..] == y
  {
    var s, n := [a] + (x + ([b] + y)), |x|;
    assert s == ([a] + x) + ([b] + y);
    assert ([a] + x)[1..] == x && ([b] + y)[1..] == y;
  }

  lemma Uncut<T>(s: seq<T>, n: nat)
    requires n + 2 <= |s|
    ensures s == [s[0]] + (s[1..1 + n] + ([s[1 + n]] + s[2 + n..]))
  {
    assert s[1 + n..] == [s[1 + n]] + s[2 + n..];
    assert s[1..] == s[1..1 + n] + s[1 + n..];
  }

  /** Where the parts of an encoded node are. */
  lemma NodeLaid(b: seq<Byte>, p: nat, name: seq<Byte>, inner: seq<Token>, after: seq<Token>)
    requires Has(b, p, Encode(BeginTok(name)) + (EncodeAll(inner) + (Encode(EndTok) + EncodeAll(after)))) && p % 4 == 0
    ensures var q := p + |Encode(BeginTok(name))|;
            var e := q + |EncodeAll(inner)|;
            && q % 4 == 0 && e % 4 == 0 && p + 4 <= |b| && Word(b, p) == BEGIN_NODE && StringAt(b, p + 4, name)
            && |Encode(BeginTok(name))| == 4 + Align(|name| + 1)
            && Has(b, q, EncodeAll(inner)) && e + 4 <= |b| && Word(b, e) == END_NODE && Has(b, e + 4, EncodeAll(after))
            && |Encode(EndTok)| == 4
  {
    hide Encode, Word, StringAt, Has, Align, EncodeAll;
    var q := p + |Encode(BeginTok(name))|;
    var e := q + |EncodeAll(inner)|;
    HasBoth(b, p, Encode(BeginTok(name)), EncodeAll(inner) + (Encode(EndTok) + EncodeAll(after)));
    HasBoth(b, q, EncodeAll(inner), Encode(EndTok) + EncodeAll(after));
    HasBoth(b, e, Encode(EndTok), EncodeAll(after));
    BeginHead(b, p, name);
    EndHead(b, e);
    EncodeAligned(inner);
  }

  lemma EndHead(b: seq<Byte>, p: nat)
    requires Has(b, p, Encode(EndTok))
    ensures p + 4 <= |b| && Word(b, p) == END_NODE && |Encode(EndTok)| == 4
  {
    hide Be4, Word;
    WordOfBe4(b, p, END_NODE);
  }

  lemma OffsetFits(b: seq<Byte>, strings: nat, block: seq<Byte>, off: nat, name: seq<Byte>)
    requires Has(b, strings, block) && StringAt(block, off, name) && |b| < U32
    ensures off < U32
  {
  }

  lemma EncodeFirst(ts: seq<Token>)
    requires ts != []
    ensures EncodeAll(ts) == Encode(ts[0]) + EncodeAll(ts[1..])
  {
    hide Encode;
  }

  lemma NodeEncodes(name: seq<Byte>, inner: seq<Token>, after: seq<Token>)
    ensures EncodeAll([BeginTok(name)] + (inner + ([EndTok] + after)))
         == Encode(BeginTok(name)) + (EncodeAll(inner) + (Encode(EndTok) + EncodeAll(after)))
  {
    hide Encode, EncodeAll;
    EncodeAppend([BeginTok(name)], inner + ([EndTok] + after));
    EncodeAppend(inner, [EndTok] + after);
    EncodeAppend([EndTok], after);
    EncodeOne(BeginTok(name));
    EncodeOne(EndTok);
  }

  lemma SpellsFrom(ts: seq<Token>, cs: seq<Call>, block: seq<Byte>, i: nat)
    requires SpellsAll(ts, cs, block) && i <= |ts|
    ensures SpellsAll(ts[i..], cs[i..], block)
  {
    SpellsSlice(ts, cs, block, i, |ts|);
    assert ts[i..|ts|] == ts[i..] && cs[i..|cs|] == cs[i..];
  }

  lemma SpellsSlice(ts: seq<Token>, cs: seq<Call>, block: seq<Byte>, i: nat, j: nat)
    requires SpellsAll(ts, cs, block) && i <= j <= |ts|
    ensures SpellsAll(ts[i..j], cs[i..j], block)
  {
    hide Spells;
  }
}
