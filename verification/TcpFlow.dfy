/** One proxied TCP connection, updated in place (`src/net/usernet.rs`). What the host socket does
    and whether timers have run out are parameters. */
module TcpFlow {
  import opened Bytes
  import opened Prelude
  import opened TcpSpec

  datatype FlowState = Connecting | SynAckSent | Established

  datatype Connect = Up | Failed | Pending

  /** What the host's send accepts: a number of bytes (0 if it would block), or an error. */
  datatype Sent = Accepted(n: nat) | SendError

  /** What the host's receive has: up to n bytes, nothing yet, the end, or an error. */
  datatype Received = Ready(n: nat) | WouldBlock | Eof | RecvError

  /** How many of `held` bytes a series of sends takes, stopping at the first that blocks or fails. */
  function Drained(sends: seq<Sent>, held: nat): (n: nat)
    ensures n <= held
  {
    if held == 0 || sends == [] || sends[0] == Accepted(0) || sends[0] == SendError then 0
    else var m := Min(sends[0].n, held); m + Drained(sends[1..], held - m)
  }

  /** How many of the sends take something. */
  function Handovers(sends: seq<Sent>, held: nat): nat {
    if held == 0 || sends == [] || sends[0] == Accepted(0) || sends[0] == SendError then 0
    else 1 + Handovers(sends[1..], held - Min(sends[0].n, held))
  }

  predicate Breaks(sends: seq<Sent>, held: nat) {
    if held == 0 || sends == [] || sends[0] == Accepted(0) then false
    else sends[0] == SendError || Breaks(sends[1..], held - Min(sends[0].n, held))
  }

  /** What the sends from the k-th on come to. */
  lemma SendsFrom(sends: seq<Sent>, k: nat, held: nat)
    requires k <= |sends|
    ensures held == 0 || k == |sends| || sends[k] == Accepted(0) || sends[k] == SendError ==>
      && Drained(sends[k..], held) == 0 && Handovers(sends[k..], held) == 0
      && (Breaks(sends[k..], held) <==> held > 0 && k < |sends| && sends[k] == SendError)
    ensures held > 0 && k < |sends| && sends[k].Accepted? && sends[k].n > 0 ==>
      var m := Min(sends[k].n, held);
      && Drained(sends[k..], held) == m + Drained(sends[k + 1..], held - m)
      && Handovers(sends[k..], held) == 1 + Handovers(sends[k + 1..], held - m)
      && Breaks(sends[k..], held) == Breaks(sends[k + 1..], held - m)
  {
    if k < |sends| { assert sends[k..][0] == sends[k] && sends[k..][1..] == sends[k + 1..]; }
  }

  datatype Ending = Open | Closed | Broken

  /** One read: how many of the `left` bytes at the host it passes on with `flight` bytes already
      unacknowledged, or how the reading ends. */
  function ReadOnce(recv: Received, flight: nat, window: nat, mss: nat, left: nat): (r: (nat, Ending))
    requires flight < window
    ensures r.0 <= left && flight + r.0 <= window && (r.0 > 0 ==> r.1 == Open)
  {
    match recv
    case WouldBlock => (0, Open)
    case Eof => (0, Closed)
    case RecvError => (0, Broken)
    case Ready(n) => (Min(Min(n, Min(Min(window - flight, mss), MSS_OURS)), left), Open)
  }

  /** At most `budget` reads in a row, until one passes on nothing or the window is full. */
  function Reads(recvs: seq<Received>, flight: nat, window: nat, mss: nat, left: nat, budget: nat): (r: (nat, Ending))
    ensures r.0 <= left && (r.0 > 0 ==> flight + r.0 <= window)
    decreases budget
  {
    if budget == 0 || recvs == [] || window <= flight then (0, Open)
    else
      var one := ReadOnce(recvs[0], flight, window, mss, left);
      if one.0 == 0 then one
      else
        var rest := Reads(recvs[1..], flight + one.0, window, mss, left - one.0, budget - 1);
        (one.0 + rest.0, rest.1)
  }

  lemma ReadsFrom(recvs: seq<Received>, i: nat, flight: nat, window: nat, mss: nat, left: nat, budget: nat)
    requires i <= |recvs|
    ensures i == |recvs| || budget == 0 || window <= flight ==>
      Reads(recvs[i..], flight, window, mss, left, budget) == (0, Open)
    ensures i < |recvs| && budget > 0 && flight < window ==>
      var one := ReadOnce(recvs[i], flight, window, mss, left);
      var rest := if one.0 == 0 then (0, one.1)
                  else Reads(recvs[i + 1..], flight + one.0, window, mss, left - one.0, budget - 1);
      Reads(recvs[i..], flight, window, mss, left, budget) == (one.0 + rest.0, rest.1)
  {
    hide ReadOnce;
    if i < |recvs| { assert recvs[i..][0] == recvs[i] && recvs[i..][1..] == recvs[i + 1..]; }
  }

  class TcpFlow {
    var state: FlowState
    var sndNxt: Seq
    var sndUna: Seq
    var rcvNxt: Seq
    var guestWindow: nat
    const mss: nat
    var toHost: seq<Byte>
    var guestFin: bool
    var hostShut: bool
    var hostEof: bool
    var finSent: bool
    var finAcked: bool
    /** Everything sent to the guest on this flow, in order. */
    var wire: seq<Segment>

    /** Our and the guest's initial sequence numbers. */
    ghost const iss: Seq
    ghost const irs: Seq
    /** How far the guest's sequence numbers have been received, counting a FIN. */
    ghost var acked: nat
    /** The bytes the host socket has accepted. */
    ghost var delivered: seq<Byte>
    ghost var marks: seq<Mark>
    /** A wild acknowledgement has been taken. */
    ghost var wild: bool

    /** What holds of a flow in every run, whatever the guest and the host do. */
    ghost predicate Valid()
      reads this
    {
      && |wire| == |marks| && WireOk(wire, marks, iss + 1, irs + 1)
      && rcvNxt == At(irs + 1 + acked)
      && |toHost| <= TO_HOST_LIMIT && guestWindow <= 65535 && mss >= 64
      && Within(wire, marks, acked + Window(|toHost|))
      && SendsValid()
    }

    /** The sending half: sequence numbers follow what has been sent. */
    ghost predicate SendsValid()
      reads `state, `sndNxt, `sndUna, `wire, `finSent, `hostEof, `wild
    {
      && (state == Connecting ==> sndNxt == iss)
      && (state != Connecting ==> sndNxt == At(iss + 1 + |Data(wire)| + (if finSent then 1 else 0)))
      && (state != Established ==> sndUna == iss && Data(wire) == [] && !finSent)
      && finSent == hostEof && (Fins(wire) <==> finSent)
      && (!wild ==> Sub(sndNxt, sndUna) <= 65535)
    }

    /** The guest's bytes have come through, if this is the stream it is sending. */
    ghost predicate Follows(stream: seq<Byte>)
      reads `delivered, `toHost, `acked, `guestFin, `hostShut
    {
      StreamOk(stream, delivered, toHost, acked, guestFin, hostShut)
    }

    /** A guest's SYN. */
    constructor (seq_: Seq, win: nat, mss: nat, iss: Seq)
      requires win <= 65535 && mss >= 64
      ensures Valid() && state == Connecting && wire == [] && irs == seq_ && this.iss == iss && this.mss == mss
      ensures !wild && forall stream :: Follows(stream)
    {
      state, sndNxt, sndUna, rcvNxt, guestWindow := Connecting, iss, iss, Add(seq_, 1), win;
      this.mss := mss;
      toHost, wire := [], [];
      guestFin, hostShut, hostEof, finSent, finAcked := false, false, false, false, false;
      this.iss, irs, acked, delivered, marks, wild := iss, seq_, 0, [], [], false;
    }

    /** Send a segment with the current acknowledgement and window. */
    method Queue(syn: bool, fin: bool, rst: bool, data: seq<Byte>)
      requires |wire| == |marks| && WireOk(wire, marks, iss + 1, irs + 1) && rcvNxt == At(irs + 1 + acked)
      requires Within(wire, marks, acked + Window(|toHost|))
      requires data != [] || fin ==>
        && !Fins(wire) && sndNxt == At(iss + 1 + |Data(wire)|) && (fin ==> data == []) && guestWindow <= 65535
        && Sub(Add(sndNxt, |data| + (if fin then 1 else 0)), sndUna) <= guestWindow
      modifies `wire, `marks
      ensures wire == old(wire) + [Segment(syn, fin, rst, sndNxt, rcvNxt, Window(|toHost|), data)]
      ensures |wire| == |marks| && WireOk(wire, marks, iss + 1, irs + 1)
      ensures Within(wire, marks, acked + Window(|toHost|))
      ensures Data(wire) == Data(old(wire)) + data && (Fins(wire) <==> Fins(old(wire)) || fin)
    {
      hide WireOk, Fins, Data, Within;
      var s := Segment(syn, fin, rst, sndNxt, rcvNxt, Window(|toHost|), data);
      ghost var m := Mark(acked, sndUna, guestWindow);
      WireGrows(wire, marks, iss + 1, irs + 1, s, m);
      DataGrows(wire, s);
      WithinGrows(wire, marks, s, m, acked + Window(|toHost|));
      wire, marks := wire + [s], marks + [m];
    }

    // --- segments from the guest ---------------------------------------------------------------

    method TakeAck(ack: Seq, win: nat)
      requires Valid() && win <= 65535
      modifies `state, `sndUna, `guestWindow, `finAcked, `wild
      ensures Valid()
      ensures state == if old(state) == SynAckSent && ack == sndNxt then Established else old(state)
      ensures var ok := state == Established && Acceptable(old(sndUna), sndNxt, ack);
              && sndUna == (if ok then ack else old(sndUna))
              && guestWindow == (if ok then win else old(guestWindow))
              && finAcked == (old(finAcked) || (ok && finSent && ack == sndNxt))
              && wild == (old(wild) || (ok && Wild(old(sndUna), sndNxt, ack)))
    {
      hide WireOk, Within, Data, Fins, At, Window, Sub, Acceptable, Wild;
      if state == SynAckSent && ack == sndNxt {
        state := Established;
      }
      if state == Established && Acceptable(sndUna, sndNxt, ack) {
        if Sub(sndNxt, sndUna) <= 65535 && !Wild(sndUna, sndNxt, ack) { AckKeepsFlight(sndUna, sndNxt, ack); }
        wild := wild || Wild(sndUna, sndNxt, ack);
        sndUna, guestWindow := ack, win;
        if finSent && ack == sndNxt { finAcked := true; }
      }
    }

    method TakeData(seq_: Seq, data: seq<Byte>, fin: bool, ghost stream: seq<Byte>, ghost p: nat)
      requires Valid()
      modifies `toHost, `rcvNxt, `acked
      ensures Valid()
      ensures toHost == old(toHost) + Taken(old(rcvNxt), seq_, data, |old(toHost)|)
      ensures rcvNxt == Add(old(rcvNxt), |toHost| - |old(toHost)|) == At(irs + 1 + acked) && acked >= old(acked)
      ensures old(Follows(stream)) && Slice(stream, irs + 1, p, seq_, data, fin, old(acked)) ==>
        && Follows(stream)
        && if Brings(p, |data|, old(acked), |old(toHost)|)
           then toHost == old(toHost) + stream[old(acked)..p + |data|] && acked == p + |data|
           else toHost == old(toHost) && acked == old(acked)
    {
      hide WireOk, Within, Data, Fins, Sub, Window, SendsValid, Slice, StreamOk, Taken, Fresh, SeqLt, At, Add;
      if Follows(stream) && Slice(stream, irs + 1, p, seq_, data, fin, acked) {
        StreamTakes(stream, delivered, toHost, acked, guestFin, hostShut, irs + 1, p, seq_, data, fin);
      }
      TakenIs(rcvNxt, seq_, data, |toHost|);
      var d := Fresh(rcvNxt, seq_, data);
      if d != [] && (SeqLt(seq_, rcvNxt) || seq_ == rcvNxt) {
        if |toHost| + |d| <= TO_HOST_LIMIT {
          EdgeKept(|toHost|, |d|);
          WithinMore(wire, marks, acked + Window(|toHost|), acked + |d| + Window(|toHost| + |d|));
          AddAt(irs + 1 + acked, |d|);
          toHost := toHost + d;
          rcvNxt := Add(rcvNxt, |d|);
          acked := acked + |d|;
        }
      }
      assert toHost == old(toHost) + Taken(old(rcvNxt), seq_, data, |old(toHost)|);
    }

    method TakeFin(seq_: Seq, data: seq<Byte>, ghost stream: seq<Byte>, ghost p: nat, ghost before: nat)
      requires Valid() && !guestFin && Add(seq_, |data|) == rcvNxt
      modifies `rcvNxt, `acked, `guestFin
      ensures Valid() && guestFin && rcvNxt == Add(old(rcvNxt), 1) == At(irs + 1 + acked) && acked == old(acked) + 1
      ensures Slice(stream, irs + 1, p, seq_, data, true, before) ==>
        old(Follows(stream) && before <= acked && (acked == before || acked == p + |data|)) ==> Follows(stream)
    {
      hide WireOk, Within, Data, Fins, Sub, Window, At, Add, SendsValid, Slice, StreamOk;
      if Follows(stream) && Slice(stream, irs + 1, p, seq_, data, true, before) && before <= acked
         && (acked == before || acked == p + |data|) {
        StreamEnds(stream, delivered, toHost, acked, hostShut, irs + 1, p, seq_, data, before);
      }
      WithinMore(wire, marks, acked + Window(|toHost|), acked + 1 + Window(|toHost|));
      AddAt(irs + 1 + acked, 1);
      rcvNxt, acked, guestFin := Add(rcvNxt, 1), acked + 1, true;
    }

    method Acknowledge(ghost stream: seq<Byte>)
      requires Valid() && state != Connecting
      modifies `wire, `marks
      ensures Valid() && wire == old(wire) + [Segment(false, false, false, sndNxt, rcvNxt, Window(|toHost|), [])]
      ensures Data(wire) == Data(old(wire)) && (old(Follows(stream)) ==> Follows(stream))
    {
      hide WireOk, Within, Data, Fins, At, Sub, Window, Follows;
      Queue(false, false, false, []);
      assert Data(old(wire)) + [] == Data(old(wire));
    }

    /** A slice of the stream has come in. If it brings the next byte wanted, and there is room, all from
        there on is held, and the next byte wanted is the one after it. A FIN is noted when nothing before
        it is missing, and counts as one more. */
    twostate predicate Received(stream: seq<Byte>, p: nat, len: nat, fin: bool)
      requires p + len <= |stream|
      reads this
    {
      var brings := Brings(p, len, old(acked), |old(toHost)|);
      var upTo := if brings then p + len else old(acked);
      && toHost == old(toHost) + (if brings then stream[old(acked)..p + len] else [])
      && guestFin == (old(guestFin) || (fin && upTo == |stream|))
      && acked == upTo + (if guestFin && !old(guestFin) then 1 else 0)
      && rcvNxt == At(irs + 1 + acked)
    }

    lemma Wanted()
      requires Valid()
      ensures rcvNxt == At(irs + 1 + acked)
    {
    }

    /** The data of a segment, if it has any. */
    method TakeAny(seq_: Seq, data: seq<Byte>, fin: bool, ghost stream: seq<Byte>, ghost p: nat)
      requires Valid()
      modifies `toHost, `rcvNxt, `acked
      ensures Valid()
      ensures toHost == old(toHost) + Taken(old(rcvNxt), seq_, data, |old(toHost)|)
      ensures rcvNxt == Add(old(rcvNxt), |toHost| - |old(toHost)|) == At(irs + 1 + acked) && acked >= old(acked)
      ensures old(Follows(stream)) && Slice(stream, irs + 1, p, seq_, data, fin, old(acked)) ==>
        && Follows(stream)
        && if Brings(p, |data|, old(acked), |old(toHost)|)
           then toHost == old(toHost) + stream[old(acked)..p + |data|] && acked == p + |data|
           else toHost == old(toHost) && acked == old(acked)
    {
      hide Valid, SendsValid, At, Taken, Add, Sub, Window, Follows;
      if data != [] {
        TakeData(seq_, data, fin, stream, p);
      } else {
        NothingTaken(rcvNxt, seq_, |toHost|);
        Wanted();
      }
    }

    /** The data and FIN of a segment on an established flow, and the acknowledgement they get. */
    method TakeText(fin: bool, seq_: Seq, data: seq<Byte>, ghost stream: seq<Byte>, ghost p: nat)
      requires Valid() && state == Established
      modifies `toHost, `rcvNxt, `acked, `guestFin, `wire, `marks
      ensures Valid()
      ensures old(Follows(stream)) && Slice(stream, irs + 1, p, seq_, data, fin, old(acked)) ==>
        Follows(stream) && Received(stream, p, |data|, fin)
      ensures TextTaken(fin, seq_, data, old(rcvNxt), old(toHost), old(guestFin), toHost, guestFin)
      ensures wire == old(wire) + if data == [] && guestFin == old(guestFin) then [] else [Plain()]
    {
      hide Valid, SendsValid, At, Taken, Add, Sub, Window, StreamOk, Slice, Brings;
      var needAck := data != [];
      TakeAny(seq_, data, fin, stream, p);
      if fin && old(Follows(stream)) && Slice(stream, irs + 1, p, seq_, data, fin, old(acked)) {
        FinSeen(stream, delivered, old(toHost), old(acked), guestFin, hostShut, irs + 1, p, seq_, data, acked);
      }
      if fin && !guestFin && Add(seq_, |data|) == rcvNxt {
        TakeFin(seq_, data, stream, p, old(acked));
        needAck := true;
      }
      if needAck {
        Acknowledge(stream);
      }
    }

    /** The last thing sent is a reset. */
    predicate ResetSent()
      reads `sndNxt, `rcvNxt, `toHost, `wire
    {
      wire != [] && wire[|wire| - 1] == Plain().(rst := true)
    }

    /** A bare acknowledgement. */
    function Plain(): Segment
      reads `sndNxt, `rcvNxt, `toHost
    {
      Segment(false, false, false, sndNxt, rcvNxt, Window(|toHost|), [])
    }

    /** A segment from the guest for this flow. Returns whether the flow is over. */
    method HandleSegment(syn: bool, fin: bool, rst: bool, hasAck: bool, seq_: Seq, ack: Seq, win: nat, data: seq<Byte>,
                         ghost stream: seq<Byte>, ghost p: nat)
      returns (removed: bool)
      requires Valid() && win <= 65535
      modifies this
      ensures Valid() && removed == (if syn && !hasAck then old(state) == Established else rst)
      ensures delivered == old(delivered) && sndNxt == old(sndNxt) && hostEof == old(hostEof)
      ensures old(Follows(stream)) && Slice(stream, irs + 1, p, seq_, data, fin, old(acked)) ==> Follows(stream)
      ensures !(syn && !hasAck) && !rst && state == Established ==>
        old(Follows(stream)) && Slice(stream, irs + 1, p, seq_, data, fin, old(acked)) ==>
        Received(stream, p, |data|, fin)
      ensures wild ==> old(wild) || (hasAck && Wild(old(sndUna), sndNxt, ack))
      ensures if (syn && !hasAck) || rst || state != Established
        then toHost == old(toHost) && wire == old(wire) && guestFin == old(guestFin)
        else TextTaken(fin, seq_, data, old(rcvNxt), old(toHost), old(guestFin), toHost, guestFin)
             && wire == old(wire) + if data == [] && guestFin == old(guestFin) then [] else [Plain()]
    {
      hide Valid, Follows, SendsValid, Acceptable, Wild, Slice, TextTaken, Plain;
      if syn && !hasAck {
        // Still connecting: the answer is on its way. Established: a stale reuse of the port.
        return state == Established;
      }
      if rst { return true; }
      if hasAck {
        TakeAck(ack, win);
      }
      if state != Established { return false; }
      TakeText(fin, seq_, data, stream, p);
      return false;
    }

    // --- the once-per-round pump ---------------------------------------------------------------

    /** Guest to host: hand over what is held until the host stops taking it. The bytes handed over
        are the front of what was held, in order. */
    method Deliver(sends: seq<Sent>, ghost stream: seq<Byte>) returns (failed: bool)
      requires Valid() && state == Established
      modifies `toHost, `delivered, `wire, `marks
      ensures Valid() && delivered + toHost == old(delivered + toHost) && Data(wire) == Data(old(wire))
      ensures old(delivered) <= delivered && old(wire) <= wire
      ensures |delivered| == |old(delivered)| + Drained(sends, |old(toHost)|) && failed == Breaks(sends, |old(toHost)|)
      ensures |wire| == |old(wire)| + Handovers(sends, |old(toHost)|)
      ensures |wire| > |old(wire)| ==> wire[|wire| - 1] == Plain()
      ensures old(Follows(stream)) ==> Follows(stream)
    {
      hide Valid, SendsValid, Data, Follows, Drained, Breaks, Handovers;
      var k := 0;
      assert sends[0..] == sends;
      while toHost != []
        invariant Valid() && delivered + toHost == old(delivered + toHost) && Data(wire) == Data(old(wire))
        invariant old(delivered) <= delivered && old(wire) <= wire && k <= |sends|
        invariant |delivered| + Drained(sends[k..], |toHost|) == |old(delivered)| + Drained(sends, |old(toHost)|)
        invariant Breaks(sends[k..], |toHost|) == Breaks(sends, |old(toHost)|)
        invariant |wire| + Handovers(sends[k..], |toHost|) == |old(wire)| + Handovers(sends, |old(toHost)|)
        invariant |wire| > |old(wire)| ==> wire[|wire| - 1] == Plain()
        invariant old(Follows(stream)) ==> Follows(stream)
        decreases |toHost|
      {
        SendsFrom(sends, k, |toHost|);
        if k >= |sends| || sends[k] == Accepted(0) { return false; }
        if sends[k] == SendError { return true; }
        HandOver(Min(sends[k].n, |toHost|), stream);
        Acknowledge(stream);
        k := k + 1;
      }
      SendsFrom(sends, k, 0);
      return false;
    }

    method HandOver(n: nat, ghost stream: seq<Byte>)
      requires Valid() && n <= |toHost|
      modifies `toHost, `delivered
      ensures Valid() && delivered == old(delivered) + old(toHost)[..n] && toHost == old(toHost)[n..]
      ensures delivered + toHost == old(delivered + toHost)
      ensures old(Follows(stream)) ==> Follows(stream)
    {
      hide WireOk, Within, Data, Fins, At, Window, StreamOk, SendsValid;
      if Follows(stream) { StreamDelivers(stream, delivered, toHost, acked, guestFin, hostShut, n); }
      EdgeKept(|toHost| - n, n);
      WithinMore(wire, marks, acked + Window(|toHost|), acked + Window(|toHost| - n));
      assert old(delivered) + old(toHost)[..n] + old(toHost)[n..] == old(delivered) + old(toHost);
      delivered, toHost := delivered + toHost[..n], toHost[n..];
    }

    /** Host to guest: send what the host has, never more than the guest has room for. `host` is
        what the host socket will yield; a prefix of it goes out, in order. */
    method Forward(host: seq<Byte>, recvs: seq<Received>, budget: nat, ghost stream: seq<Byte>)
      returns (failed: bool, used: nat)
      requires Valid() && state == Established
      modifies `sndNxt, `hostEof, `finSent, `wire, `marks
      ensures Valid() && old(wire) <= wire && used <= |host| && Data(wire) == Data(old(wire)) + host[..used]
      ensures old(Follows(stream)) ==> Follows(stream)
      ensures var r := Reads(recvs, Sub(old(sndNxt), sndUna), guestWindow, mss, |host|, budget);
              if old(hostEof) then used == 0 && !failed && hostEof
              else used == r.0 && failed == (r.1 == Broken) && hostEof == (r.1 == Closed)
      ensures failed ==> ResetSent()
    {
      hide Valid, SendsValid, Data, Fins, Follows, Sub, Reads, ReadOnce, ResetSent, Plain;
      failed, used := false, 0;
      assert Data(wire) == Data(old(wire)) + host[..0];
      assert recvs[0..] == recvs;
      if hostEof { return; }
      ghost var all := Reads(recvs, Sub(sndNxt, sndUna), guestWindow, mss, |host|, budget);
      for i := 0 to budget
        invariant Valid() && old(wire) <= wire && used <= |host| && Data(wire) == Data(old(wire)) + host[..used]
        invariant !failed && !hostEof && i <= |recvs|
        invariant var r := Reads(recvs[i..], Sub(sndNxt, sndUna), guestWindow, mss, |host| - used, budget - i);
                  used + r.0 == all.0 && r.1 == all.1
      {
        ReadsFrom(recvs, i, Sub(sndNxt, sndUna), guestWindow, mss, |host| - used, budget - i);
        if guestWindow <= Sub(sndNxt, sndUna) || i >= |recvs| { return; }
        var n, ending := ForwardOne(recvs[i], host[used..]);
        TakenMore(Data(old(wire)), host, used, n);
        used := used + n;
        failed := ending == Broken;
        if n == 0 { return; }
      }
      if budget <= |recvs| { ReadsFrom(recvs, budget, Sub(sndNxt, sndUna), guestWindow, mss, |host| - used, 0); }
    }

    method ForwardOne(recv: Received, host: seq<Byte>) returns (n: nat, ending: Ending)
      requires Valid() && state == Established && !hostEof && Sub(sndNxt, sndUna) < guestWindow
      modifies `sndNxt, `hostEof, `finSent, `wire, `marks
      ensures (n, ending) == ReadOnce(recv, Sub(old(sndNxt), sndUna), guestWindow, mss, |host|)
      ensures Valid() && old(wire) <= wire && Data(wire) == Data(old(wire)) + host[..n]
      ensures hostEof == (ending == Closed) && (n > 0 ==> Sub(sndNxt, sndUna) == Sub(old(sndNxt), sndUna) + n)
      ensures ending == Broken ==> wire == old(wire) + [Plain().(rst := true)] && ResetSent()
    {
      hide Valid, SendsValid, Data, Sub;
      n, ending := 0, Open;
      assert Data(wire) + host[..0] == Data(wire);
      match recv
      case WouldBlock =>
      case Eof =>
        SendFin();
        ending := Closed;
      case RecvError =>
        SendReset();
        ending := Broken;
      case Ready(m) =>
        var room := Min(Min(guestWindow - Sub(sndNxt, sndUna), mss), MSS_OURS);
        n := Min(Min(m, room), |host|);
        if n > 0 { SendData(host[..n]); }
    }

    method SendData(data: seq<Byte>)
      requires Valid() && state == Established && !hostEof && data != [] && Sub(sndNxt, sndUna) + |data| <= guestWindow
      modifies `sndNxt, `wire, `marks
      ensures Valid() && old(wire) <= wire && Data(wire) == Data(old(wire)) + data
      ensures Sub(sndNxt, sndUna) == Sub(old(sndNxt), sndUna) + |data|
    {
      hide WireOk, Within, Data, Fins, Window, Sub, Add, At;
      FlightGrows(sndNxt, sndUna, |data|);
      Queue(false, false, false, data);
      AddAt(iss + 1 + |Data(old(wire))|, |data|);
      sndNxt := Add(sndNxt, |data|);
    }

    method SendFin()
      requires Valid() && state == Established && !hostEof && Sub(sndNxt, sndUna) < guestWindow
      modifies `sndNxt, `hostEof, `finSent, `wire, `marks
      ensures Valid() && old(wire) <= wire && Data(wire) == Data(old(wire)) && hostEof
    {
      hide WireOk, Within, Data, Fins, Window, Sub, Add, At;
      FlightGrows(sndNxt, sndUna, 1);
      hostEof := true;
      Queue(false, true, false, []);
      assert Data(old(wire)) + [] == Data(old(wire));
      AddAt(iss + 1 + |Data(old(wire))|, 1);
      sndNxt := Add(sndNxt, 1);
      finSent := true;
    }

    method SendReset()
      requires Valid() && state == Established
      modifies `wire, `marks
      ensures Valid() && Data(wire) == Data(old(wire)) && wire == old(wire) + [Plain().(rst := true)] && ResetSent()
    {
      hide WireOk, Within, Data, Fins, Window, Sub, Add, At;
      Queue(false, false, true, []);
      assert Data(old(wire)) + [] == Data(old(wire));
    }

    /** The host connection is up: complete the guest's handshake. */
    method CompleteHandshake()
      requires Valid() && state == Connecting
      modifies `sndNxt, `state, `wire, `marks
      ensures Valid() && state == SynAckSent && sndNxt == Add(iss, 1)
      ensures Data(wire) == Data(old(wire))
      ensures wire == old(wire) + [Segment(true, false, false, iss, rcvNxt, Window(|toHost|), [])]
    {
      hide WireOk, Within, Fins, Window, Data, At, Sub, Add;
      StartOfStream(iss);
      Queue(true, false, false, []);
      assert Data(old(wire)) + [] == Data(old(wire));
      sndNxt := Add(sndNxt, 1);
      state := SynAckSent;
    }

    /** Refused or unreachable: the guest sees an ordinary reset. */
    method Refuse()
      requires Valid() && state == Connecting
      modifies `wire, `marks
      ensures Valid() && Data(wire) == Data(old(wire))
      ensures wire == old(wire) + [Segment(false, false, true, 0, rcvNxt, 0, [])]
    {
      hide WireOk, Within, Fins, Data, Window;
      var s := Segment(false, false, true, 0, rcvNxt, 0, []);
      ghost var m := Mark(acked, sndUna, guestWindow);
      WireGrows(wire, marks, iss + 1, irs + 1, s, m);
      DataGrows(wire, s);
      WithinGrows(wire, marks, s, m, acked + Window(|toHost|));
      assert Data(wire) + [] == Data(wire);
      wire, marks := wire + [s], marks + [m];
    }

    /** What a round keeps, and what it moves from the host to the guest. */
    twostate predicate Pumped(host: seq<Byte>, used: nat)
      reads this
    {
      && Valid() && old(wire) <= wire && used <= |host| && Data(wire) == Data(old(wire)) + host[..used]
      && delivered + toHost == old(delivered + toHost) && old(delivered) <= delivered
      && guestFin == old(guestFin) && sndUna == old(sndUna) && wild == old(wild) && finAcked == old(finAcked)
    }

    /** What a round of an established flow comes to: how much goes each way, when the host's side is
        shut, when a reset goes out, and when the flow is over. */
    twostate predicate OpenRound(lingerExpired: bool, sends: seq<Sent>, host: seq<Byte>, recvs: seq<Received>,
                                 removed: bool, used: nat)
      reads this
    {
      var flight := Sub(old(sndNxt), sndUna);
      var read := if old(hostEof) then (0, Open) else Reads(recvs, flight, guestWindow, mss, |host|, 32);
      && |delivered| == |old(delivered)| + Drained(sends, |old(toHost)|)
      && if Breaks(sends, |old(toHost)|) then removed && used == 0 && ResetSent()
         else
           && hostShut == (old(hostShut) || (guestFin && toHost == [])) && used == read.0
           && removed == (read.1 == Broken || (finAcked && guestFin && toHost == [])
                          || (lingerExpired && (guestFin || hostEof)))
           && (read.1 == Broken ==> ResetSent())
    }

    /** A round of an established flow: hand over, shut the host's side once everything is through,
        read from the host, and see whether the flow is done. */
    method PumpOpen(lingerExpired: bool, sends: seq<Sent>, host: seq<Byte>, recvs: seq<Received>,
                    ghost stream: seq<Byte>)
      returns (removed: bool, used: nat)
      requires Valid() && state == Established
      modifies `toHost, `delivered, `wire, `marks, `hostShut, `sndNxt, `hostEof, `finSent
      ensures Pumped(host, used) && (old(Follows(stream)) ==> Follows(stream))
      ensures OpenRound(lingerExpired, sends, host, recvs, removed, used)
    {
      hide Valid, SendsValid, Data, Fins, StreamOk, Add, Window, Reads, Drained, Breaks, Handovers, ResetSent;
      hide Plain, Sub;
      used := 0;
      assert Data(wire) + host[..0] == Data(wire);
      var failed := Deliver(sends, stream);
      if failed {
        SendReset();
        return true, 0;
      }
      if guestFin && toHost == [] && !hostShut {
        ShutHost(stream);
      }
      failed, used := Forward(host, recvs, 32, stream);
      removed := failed || (finAcked && guestFin && toHost == []) || (lingerExpired && (guestFin || hostEof));
    }

    /** One round for this flow. Returns whether it is over. */
    method Pump(connect: Connect, handshakeExpired: bool, lingerExpired: bool, sends: seq<Sent>, host: seq<Byte>,
                recvs: seq<Received>, ghost stream: seq<Byte>)
      returns (removed: bool, used: nat)
      requires Valid()
      modifies this
      ensures Pumped(host, used) && (old(Follows(stream)) ==> Follows(stream))
      ensures match old(state)
              case Connecting =>
                && state == (if connect == Up then SynAckSent else Connecting)
                && removed == (connect == Failed || (connect == Pending && handshakeExpired))
              case SynAckSent => state == SynAckSent && removed == handshakeExpired && wire == old(wire)
              case Established => state == Established && OpenRound(lingerExpired, sends, host, recvs, removed, used)
    {
      hide Valid, SendsValid, Data, Fins, StreamOk, Add, Window, Reads, Drained, Breaks, Handovers, ResetSent;
      removed, used := false, 0;
      assert Data(wire) + host[..0] == Data(wire);
      match state
      case Connecting =>
        match connect {
          case Up => CompleteHandshake();
          case Failed => Refuse(); removed := true;
          case Pending => removed := handshakeExpired;
        }
      case SynAckSent =>
        removed := handshakeExpired;
      case Established =>
        removed, used := PumpOpen(lingerExpired, sends, host, recvs, stream);
    }

    method ShutHost(ghost stream: seq<Byte>)
      requires Valid() && guestFin && toHost == []
      modifies `hostShut
      ensures Valid() && hostShut && (old(Follows(stream)) ==> Follows(stream))
    {
      hide WireOk, Within, Fins, Data, SendsValid, At, Window;
      hostShut := true;
      assert delivered + [] == delivered;
    }
  }

  lemma TakenMore(sent: seq<Byte>, host: seq<Byte>, used: nat, n: nat)
    requires used + n <= |host|
    ensures sent + host[..used] + host[used..][..n] == sent + host[..used + n]
  {
    assert host[..used] + host[used..][..n] == host[..used + n];
  }

  lemma StartOfStream(iss: Seq)
    ensures Add(iss, 1) == At(iss + 1) && Sub(Add(iss, 1), iss) == 1
  {
  }

  lemma FlightGrows(nxt: Seq, una: Seq, n: nat)
    requires Sub(nxt, una) + n < U32
    ensures Sub(Add(nxt, n), una) == Sub(nxt, una) + n
  {
  }

  /** The new bytes of a segment are held for the host, and its FIN is noted once everything before
      it is in. */
  predicate TextTaken(fin: bool, seq_: Seq, data: seq<Byte>, rcv: Seq, held: seq<Byte>, done: bool, held': seq<Byte>,
                      done': bool) {
    var taken := Taken(rcv, seq_, data, |held|);
    held' == held + taken && done' == (done || (fin && Add(seq_, |data|) == Add(rcv, |taken|)))
  }

  lemma WithinMore(wire: seq<Segment>, marks: seq<Mark>, edge: nat, more: nat)
    requires |wire| == |marks| && Within(wire, marks, edge) && edge <= more
    ensures Within(wire, marks, more)
  {
  }

  lemma TakenIs(rcv: Seq, seq_: Seq, data: seq<Byte>, held: nat)
    ensures var d := Fresh(rcv, seq_, data);
            Taken(rcv, seq_, data, held) ==
              if d != [] && (SeqLt(seq_, rcv) || seq_ == rcv) && held + |d| <= TO_HOST_LIMIT then d else []
    ensures Add(rcv, 0) == rcv
  {
  }

  lemma NothingTaken(rcv: Seq, seq_: Seq, held: nat)
    ensures Taken(rcv, seq_, [], held) == [] && Add(rcv, 0) == rcv
  {
  }
}
