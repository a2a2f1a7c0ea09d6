/** Sequence-number arithmetic and what one flow of the user-mode TCP proxy promises
    (`src/net/usernet.rs`; sections 3.4 and 3.8.6 of RFC 9293). */
module TcpSpec {
  import opened Bytes

  const U32: nat := 0x1_0000_0000
  const HALF: nat := 0x8000_0000
  const TO_HOST_LIMIT: nat := 0x2_0000
  const MSS_OURS: nat := 1460

  /** A 32-bit sequence number. */
  type Seq = x: nat | x < U32

  /** The sequence number of position x. */
  function At(x: nat): Seq { x % U32 }

  function Sub(a: Seq, b: Seq): Seq { (a - b) % U32 }

  function Add(a: Seq, n: nat): Seq { (a + n) % U32 }

  predicate SeqLt(a: Seq, b: Seq) { Sub(a, b) >= HALF }

  predicate SeqLe(a: Seq, b: Seq) { Sub(a, b) == 0 || Sub(a, b) >= HALF }

  lemma SubAt(x: nat, y: nat)
    requires y <= x < y + U32
    ensures Sub(At(x), At(y)) == x - y
    ensures x > y ==> Sub(At(y), At(x)) == U32 - (x - y)
  {
    var a, b := x / U32, y / U32;
    assert a == b || a == b + 1;
    assert At(x) - At(y) == x - y || At(x) - At(y) == x - y - U32;
  }

  lemma AddAt(x: nat, n: nat)
    ensures Add(At(x), n) == At(x + n)
  {
  }

  /** Comparing sequence numbers compares positions, within half the number space. */
  lemma SeqOrder(x: nat, y: nat)
    requires y < x + HALF && x < y + HALF
    ensures SeqLt(At(x), At(y)) <==> x < y
    ensures SeqLe(At(x), At(y)) <==> x <= y
  {
    if x >= y { SubAt(x, y); } else { SubAt(y, x); }
  }

  // --- acknowledgements -----------------------------------------------------------------------

  /** Is this acknowledgement taken? */
  predicate Acceptable(una: Seq, nxt: Seq, ack: Seq) { SeqLe(una, ack) && SeqLe(ack, nxt) }

  /** The one acknowledgement that should not be taken and is: exactly half the number space ahead
      when nothing is in flight. */
  predicate Wild(una: Seq, nxt: Seq, ack: Seq) { una == nxt && ack == Add(una, HALF) }

  /** An acknowledgement that is taken never leaves more in flight, unless it is the wild one. */
  lemma AckShrinksFlight(una: Seq, nxt: Seq, ack: Seq)
    requires Sub(nxt, una) < HALF && Acceptable(una, nxt, ack)
    ensures Sub(nxt, ack) <= Sub(nxt, una) <==> !Wild(una, nxt, ack)
    ensures Wild(una, nxt, ack) ==> Sub(nxt, ack) == HALF
  {
    hide Sub;
    SubVia(una, ack, una);
    SubVia(ack, nxt, una);
    SubVia(nxt, ack, una);
    WildIs(una, nxt, ack);
  }

  /** Differences measured from a third number. */
  lemma SubVia(a: Seq, b: Seq, from: Seq)
    ensures Sub(a, b) == var x, y := Sub(a, from), Sub(b, from); if x >= y then x - y else U32 - (y - x)
    ensures Sub(from, from) == 0
  {
  }

  lemma WildIs(una: Seq, nxt: Seq, ack: Seq)
    ensures Wild(una, nxt, ack) <==> Sub(nxt, una) == 0 && Sub(ack, una) == HALF
  {
  }

  lemma AckKeepsFlight(una: Seq, nxt: Seq, ack: Seq)
    requires Sub(nxt, una) <= 65535 && Acceptable(una, nxt, ack) && !Wild(una, nxt, ack)
    ensures Sub(nxt, ack) <= 65535
  {
    hide Acceptable, Wild, Sub;
    AckShrinksFlight(una, nxt, ack);
  }

  /** In-flight data does not always stay within 65535. */
  lemma FlightCanJump()
    ensures Acceptable(100, 100, 100 + HALF) && Sub(100, 100 + HALF) > 65535
  {
  }

  // --- receiving --------------------------------------------------------------------------------

  /** The part of a segment that has not been received yet. */
  function Fresh(rcv: Seq, seq_: Seq, data: seq<Byte>): seq<Byte> {
    if SeqLt(seq_, rcv) then
      var skip := Sub(rcv, seq_);
      if skip >= |data| then [] else data[skip..]
    else data
  }

  /** The bytes of a segment that are taken: in order, and all or nothing as room allows. */
  function Taken(rcv: Seq, seq_: Seq, data: seq<Byte>, held: nat): (r: seq<Byte>)
    ensures r != [] ==> held + |r| <= TO_HOST_LIMIT
  {
    var d := Fresh(rcv, seq_, data);
    if d != [] && (SeqLt(seq_, rcv) || seq_ == rcv) && held + |d| <= TO_HOST_LIMIT then d else []
  }

  /** A segment that carries stream[p..], at the sequence number of p, within half the number space
      of the next byte wanted. A FIN comes at the end of the stream. */
  predicate Slice(stream: seq<Byte>, first: nat, p: nat, seq_: Seq, data: seq<Byte>, fin: bool, acked: nat) {
    && |data| <= 65535 && p + |data| <= |stream| && data == stream[p..p + |data|]
    && seq_ == At(first + p) && (fin ==> p + |data| == |stream|)
    && acked <= p + HALF && p <= acked + HALF
  }

  /** A slice from p brings the next byte wanted, and there is room for all from there on. */
  predicate Brings(p: nat, len: nat, acked: nat, held: nat) {
    p <= acked < p + len && held + (p + len - acked) <= TO_HOST_LIMIT
  }

  /** Of a slice that brings the next byte exactly the part from there on is taken, and of any other
      nothing. */
  lemma SliceTaken(stream: seq<Byte>, first: nat, p: nat, seq_: Seq, data: seq<Byte>, fin: bool, acked: nat, held: nat)
    requires Slice(stream, first, p, seq_, data, fin, acked)
    ensures Taken(At(first + acked), seq_, data, held) ==
            if Brings(p, |data|, acked, held) then stream[acked..p + |data|] else []
  {
    if p >= acked { SubAt(first + p, first + acked); } else { SubAt(first + acked, first + p); }
    if p > acked && SeqLt(seq_, At(first + acked)) {
      assert p == acked + HALF;
      assert Sub(At(first + acked), seq_) == HALF;
    } else if p < acked {
      assert Sub(At(first + acked), seq_) == acked - p;
      if acked - p < |data| { assert data[acked - p..] == stream[acked..p + |data|]; }
    }
  }

  /** A FIN is recognised exactly when everything before it has been received. */
  lemma SliceFin(stream: seq<Byte>, first: nat, p: nat, seq_: Seq, data: seq<Byte>, acked: nat, now: nat)
    requires Slice(stream, first, p, seq_, data, true, acked) && acked <= now <= |stream| + 1
    requires now == acked || now == |stream|
    ensures Add(seq_, |data|) == At(first + now) <==> now == |stream|
  {
    AddAt(first + p, |data|);
    if now < |stream| {
      SubAt(first + |stream|, first + now);
    } else if now > |stream| {
      SubAt(first + now, first + |stream|);
    }
  }

  /** The guest's bytes have come through: those the host has accepted and those still held are,
      together, the stream up to the next byte wanted, and the host's side is shut only after the
      whole stream. */
  ghost predicate StreamOk(stream: seq<Byte>, delivered: seq<Byte>, held: seq<Byte>, acked: nat, fin: bool,
                           shut: bool) {
    && delivered + held <= stream
    && acked == |delivered| + |held| + (if fin then 1 else 0)
    && (fin ==> delivered + held == stream)
    && (shut ==> delivered == stream)
  }

  lemma StreamTakes(stream: seq<Byte>, delivered: seq<Byte>, held: seq<Byte>, acked: nat, done: bool, shut: bool,
                    first: nat, p: nat, seq_: Seq, data: seq<Byte>, fin: bool)
    requires StreamOk(stream, delivered, held, acked, done, shut) && Slice(stream, first, p, seq_, data, fin, acked)
    ensures var r := Taken(At(first + acked), seq_, data, |held|);
            && StreamOk(stream, delivered, held + r, acked + |r|, done, shut)
            && r == (if Brings(p, |data|, acked, |held|) then stream[acked..p + |data|] else [])
            && |r| == (if Brings(p, |data|, acked, |held|) then p + |data| - acked else 0)
  {
    hide Taken, At;
    SliceTaken(stream, first, p, seq_, data, fin, acked, |held|);
    var r := Taken(At(first + acked), seq_, data, |held|);
    assert delivered + (held + r) == (delivered + held) + r;
    if r == [] { assert held + r == held; }
  }

  lemma FinSeen(stream: seq<Byte>, delivered: seq<Byte>, held: seq<Byte>, acked: nat, done: bool, shut: bool,
                first: nat, p: nat, seq_: Seq, data: seq<Byte>, now: nat)
    requires StreamOk(stream, delivered, held, acked, done, shut) && Slice(stream, first, p, seq_, data, true, acked)
    requires acked <= now && (now == acked || now == p + |data|)
    ensures Add(seq_, |data|) == At(first + now) <==> now == |stream|
  {
    hide At, Add;
    SliceFin(stream, first, p, seq_, data, acked, now);
  }

  lemma StreamEnds(stream: seq<Byte>, delivered: seq<Byte>, held: seq<Byte>, acked: nat, shut: bool,
                   first: nat, p: nat, seq_: Seq, data: seq<Byte>, before: nat)
    requires StreamOk(stream, delivered, held, acked, false, shut) && Slice(stream, first, p, seq_, data, true, before)
    requires before <= acked && (acked == before || acked == p + |data|) && Add(seq_, |data|) == At(first + acked)
    ensures StreamOk(stream, delivered, held, acked + 1, true, shut)
  {
    hide At, Add;
    SliceFin(stream, first, p, seq_, data, before, acked);
  }

  lemma StreamDelivers(stream: seq<Byte>, delivered: seq<Byte>, held: seq<Byte>, acked: nat, fin: bool, shut: bool,
                       n: nat)
    requires StreamOk(stream, delivered, held, acked, fin, shut) && n <= |held|
    ensures StreamOk(stream, delivered + held[..n], held[n..], acked, fin, shut)
  {
    assert delivered + held[..n] + held[n..] == delivered + held;
  }

  // --- what is sent -------------------------------------------------------------------------------

  function Window(held: nat): (w: nat)
    ensures w <= 65535
  {
    var room := if held <= TO_HOST_LIMIT then TO_HOST_LIMIT - held else 0;
    if room <= 65535 then room else 65535
  }

  datatype Segment = Segment(syn: bool, fin: bool, rst: bool, seq_: Seq, ack: Seq, window: nat, data: seq<Byte>)

  /** What was true of the flow when a segment was sent: how much it had received since the
      guest's SYN, what the guest had acknowledged, and the window the guest had offered. */
  datatype Mark = Mark(acked: nat, una: Seq, guestWindow: nat)

  function Data(wire: seq<Segment>): seq<Byte> {
    if wire == [] then [] else Data(wire[..|wire| - 1]) + wire[|wire| - 1].data
  }

  predicate Fins(wire: seq<Segment>) { exists i :: 0 <= i < |wire| && wire[i].fin }

  /** Bytes and FIN occupy the sequence numbers after all earlier bytes, nothing follows a FIN, and
      the guest's window has room for them. */
  ghost predicate SendOk(earlier: seq<Segment>, s: Segment, m: Mark, first: nat) {
    s.data != [] || s.fin ==>
      && !Fins(earlier) && s.seq_ == At(first + |Data(earlier)|) && (s.fin ==> s.data == [])
      && Sub(Add(s.seq_, |s.data| + (if s.fin then 1 else 0)), m.una) <= m.guestWindow <= 65535
  }

  function Edge(s: Segment, m: Mark): nat { m.acked + s.window }

  /** The whole log is in order. `first` and `rfirst` are the positions of the first byte each way. */
  ghost predicate WireOk(wire: seq<Segment>, marks: seq<Mark>, first: nat, rfirst: nat) {
    && |wire| == |marks|
    && (forall i {:trigger wire[i]} :: 0 <= i < |wire| ==> SendOk(wire[..i], wire[i], marks[i], first))
    && (forall i {:trigger wire[i]} :: 0 <= i < |wire| ==> wire[i].ack == At(rfirst + marks[i].acked))
    && (forall i, j :: 0 <= i < j < |wire| && !wire[i].rst && !wire[j].rst ==>
          Edge(wire[i], marks[i]) <= Edge(wire[j], marks[j]))
  }

  /** No segment has promised room beyond `edge`. */
  ghost predicate Within(wire: seq<Segment>, marks: seq<Mark>, edge: nat)
    requires |wire| == |marks|
  {
    forall i {:trigger wire[i]} :: 0 <= i < |wire| && !wire[i].rst ==> Edge(wire[i], marks[i]) <= edge
  }

  lemma WireGrows(wire: seq<Segment>, marks: seq<Mark>, first: nat, rfirst: nat, s: Segment, m: Mark)
    requires WireOk(wire, marks, first, rfirst) && SendOk(wire, s, m, first) && s.ack == At(rfirst + m.acked)
    requires !s.rst ==> Within(wire, marks, Edge(s, m))
    ensures WireOk(wire + [s], marks + [m], first, rfirst)
  {
    hide SendOk, Edge, At;
    var w, n := wire + [s], |wire|;
    assert w[..n] == wire;
    forall i {:trigger w[i]} | 0 <= i < |w| ensures SendOk(w[..i], w[i], (marks + [m])[i], first) {
      if i < n { assert w[..i] == wire[..i] && w[i] == wire[i]; }
    }
  }

  lemma DataGrows(wire: seq<Segment>, s: Segment)
    ensures Data(wire + [s]) == Data(wire) + s.data && (Fins(wire + [s]) <==> Fins(wire) || s.fin)
  {
    var w, n := wire + [s], |wire|;
    assert w[..n] == wire;
    if Fins(wire) { var i :| 0 <= i < |wire| && wire[i].fin; assert w[i].fin; }
    if s.fin { assert w[n].fin; }
  }

  lemma WithinGrows(wire: seq<Segment>, marks: seq<Mark>, s: Segment, m: Mark, edge: nat)
    requires |wire| == |marks| && Within(wire, marks, edge) && (!s.rst ==> Edge(s, m) <= edge)
    ensures Within(wire + [s], marks + [m], edge)
  {
    hide Edge;
  }

  /** Taking bytes into the buffer does not move the window's right edge left, nor does passing
      them on to the host. */
  lemma EdgeKept(held: nat, n: nat)
    requires held + n <= TO_HOST_LIMIT
    ensures Window(held) <= n + Window(held + n) && Window(held + n) <= Window(held)
  {
  }
}
