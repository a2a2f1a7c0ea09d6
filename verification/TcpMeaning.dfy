/** What a flow accepts, offers, hands over and reads, in plain numbers. */
module TcpMeaning {
  import opened Bytes
  import opened Prelude
  import opened TcpSpec
  import opened TcpFlow

  /** A 32-bit number read as a signed one. */
  function Signed32(x: Seq): int { if x < 0x8000_0000 then x else x - 0x1_0000_0000 }

  /** Sequence numbers compare by the sign of their difference, for all of them. */
  lemma SeqSigned(a: Seq, b: Seq)
    ensures SeqLt(a, b) <==> Signed32((a - b) % 0x1_0000_0000) < 0
    ensures SeqLe(a, b) <==> Signed32((a - b) % 0x1_0000_0000) <= 0
  {
  }

  /** An acknowledgement is accepted exactly when it lies between what is acknowledged and what is sent,
      for positions less than 2^31 apart. */
  lemma AcceptableMeans(una: nat, nxt: nat, ack: nat)
    requires una <= nxt && ack < una + 0x8000_0000 && una < ack + 0x8000_0000
    requires ack < nxt + 0x8000_0000 && nxt < ack + 0x8000_0000
    ensures Acceptable(At(una), At(nxt), At(ack)) <==> una <= ack <= nxt
  {
    hide At, Sub;
    SeqOrder(una, ack);
    SeqOrder(ack, nxt);
  }

  /** The window offered never exceeds the room for 131072 bytes, and is all of it up to 65535. */
  lemma WindowMeans(held: nat)
    ensures held <= 0x2_0000 ==>
      held + Window(held) <= 0x2_0000 && (Window(held) == 65535 || held + Window(held) == 0x2_0000)
    ensures held > 0x2_0000 ==> Window(held) == 0
  {
  }

  // --- handing over --------------------------------------------------------------------------------

  /** The sends that take something, up to the first that does not. */
  function Willing(sends: seq<Sent>): (r: seq<Sent>)
    ensures r <= sends && forall k :: 0 <= k < |r| ==> r[k].Accepted? && r[k].n > 0
    ensures |r| < |sends| ==> sends[|r|] == SendError || sends[|r|] == Accepted(0)
  {
    if sends == [] || sends[0] == SendError || sends[0] == Accepted(0) then []
    else
      var rest := Willing(sends[1..]);
      assert |rest| < |sends| - 1 ==> sends[1..][|rest|] == sends[|rest| + 1];
      assert [sends[0]] + sends[1..] == sends;
      [sends[0]] + rest
  }

  function Sum(sends: seq<Sent>): nat
    requires forall k :: 0 <= k < |sends| ==> sends[k].Accepted?
  {
    if sends == [] then 0 else sends[0].n + Sum(sends[1..])
  }

  /** The host gets as much as it takes before it first takes nothing, and no more than there is. The flow
      breaks when that first is an error and something is left. */
  lemma {:induction false} DrainedMeans(sends: seq<Sent>, held: nat)
    ensures Drained(sends, held) == Min(held, Sum(Willing(sends)))
    ensures Breaks(sends, held) <==>
      Sum(Willing(sends)) < held && |Willing(sends)| < |sends| && sends[|Willing(sends)|] == SendError
    decreases |sends|
  {
    if held > 0 && sends != [] && sends[0] != SendError && sends[0] != Accepted(0) {
      var m := Min(sends[0].n, held);
      DrainedMeans(sends[1..], held - m);
      assert Willing(sends)[1..] == Willing(sends[1..]);
    }
  }

  /** The guest is told of room each time the host takes something: as often as it takes until everything
      is gone. */
  lemma {:induction false} HandoversMeans(sends: seq<Sent>, held: nat)
    ensures var k, w := Handovers(sends, held), Willing(sends);
            && k <= |w| && (k == |w| || Sum(w[..k]) >= held) && (k > 0 ==> Sum(w[..k - 1]) < held)
    decreases |sends|
  {
    hide Sum;
    NoneSum();
    var w := Willing(sends);
    if held > 0 && sends != [] && sends[0] != SendError && sends[0] != Accepted(0) {
      var m := Min(sends[0].n, held);
      HandoversMeans(sends[1..], held - m);
      var k, v := Handovers(sends[1..], held - m), Willing(sends[1..]);
      assert w[1..] == v;
      SumFront(w, k + 1);
      if k > 0 { SumFront(w, k); }
    } else {
      assert w[..0] == [];
    }
  }

  lemma NoneSum()
    ensures Sum([]) == 0
  {
  }

  lemma SumFront(w: seq<Sent>, k: nat)
    requires 0 < k <= |w| && forall i :: 0 <= i < |w| ==> w[i].Accepted?
    ensures Sum(w[..k]) == w[0].n + Sum(w[1..][..k - 1])
  {
    assert w[..k][1..] == w[1..][..k - 1];
  }

  // --- reading ---------------------------------------------------------------------------------------

  /** A read passes on as much as the socket gives, the window leaves, a segment holds (the guest's limit
      and 1460) and the host has: no more than any of these, and all of one. */
  lemma ReadMeans(m: nat, flight: nat, window: nat, mss: nat, left: nat)
    requires flight < window
    ensures var r := ReadOnce(Ready(m), flight, window, mss, left);
            && r.1 == Open && r.0 <= m && r.0 <= window - flight && r.0 <= mss && r.0 <= 1460 && r.0 <= left
            && (r.0 == m || r.0 == window - flight || r.0 == mss || r.0 == 1460 || r.0 == left)
    ensures ReadOnce(WouldBlock, flight, window, mss, left) == (0, Open)
    ensures ReadOnce(Eof, flight, window, mss, left) == (0, Closed)
    ensures ReadOnce(RecvError, flight, window, mss, left) == (0, Broken)
  {
  }

  lemma ReadsFirst(recvs: seq<Received>, flight: nat, window: nat, mss: nat, left: nat, budget: nat)
    ensures var r := Reads(recvs, flight, window, mss, left, budget);
            if recvs == [] || budget == 0 || window <= flight then r == (0, Open)
            else
              var one := ReadOnce(recvs[0], flight, window, mss, left);
              var rest := if one.0 == 0 then (0, one.1)
                          else Reads(recvs[1..], flight + one.0, window, mss, left - one.0, budget - 1);
              r == (one.0 + rest.0, rest.1)
  {
    hide ReadOnce;
  }

  /** A round of reads goes on until the budget or the answers run out, the window is full, the host has
      nothing more, or a read gives nothing: then the round ends closed exactly at the end of the host's
      stream, broken exactly at an error. Each of the k reads before passes on between 1 and 1460 bytes. */
  lemma {:induction false} ReadsStop(recvs: seq<Received>, flight: nat, window: nat, mss: nat, left: nat, budget: nat)
    returns (k: nat)
    ensures k <= |recvs| && k <= budget && forall j :: 0 <= j < k ==> recvs[j].Ready?
    ensures var r := Reads(recvs, flight, window, mss, left, budget);
            var asked := k < budget && k < |recvs| && flight + r.0 < window;
            && k <= r.0 <= 1460 * k
            && (r.1 == Closed <==> asked && recvs[k] == Eof) && (r.1 == Broken <==> asked && recvs[k] == RecvError)
            && (asked && recvs[k].Ready? ==> recvs[k].n == 0 || mss == 0 || r.0 == left)
    decreases budget
  {
    hide ReadOnce, Reads;
    k := 0;
    ReadsFirst(recvs, flight, window, mss, left, budget);
    if budget > 0 && recvs != [] && flight < window {
      ReadMeans(if recvs[0].Ready? then recvs[0].n else 0, flight, window, mss, left);
      var one := ReadOnce(recvs[0], flight, window, mss, left);
      if one.0 > 0 {
        var n := ReadsStop(recvs[1..], flight + one.0, window, mss, left - one.0, budget - 1);
        k := n + 1;
      }
    }
  }
}
