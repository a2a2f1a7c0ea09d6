/** What the hart-management, IPI and fence calls do, field by field and code by code (the HSM, IPI and
    RFENCE chapters of the RISC-V SBI specification), told without the functions that do it. */
module SbiMeaning {
  import opened Hsm
  import opened HartControl

  /** A signal reaches every other listed hart through its mailbox. */
  lemma {:induction false} SentOther(harts: seq<Hart>, me: nat, signal: Signal, ids: seq<nat>, h: nat)
    requires h < |harts| && h != me && forall k :: 0 <= k < |ids| ==> ids[k] < |harts|
    ensures SentAll(harts, me, signal, ids)[h] ==
      if h !in ids then harts[h] else if signal == Ipi then harts[h].(ipi := true) else harts[h].(fence := true)
    decreases |ids|
  {
    if ids != [] {
      var init := ids[..|ids| - 1];
      assert ids == init + [ids[|ids| - 1]];
      SentOther(harts, me, signal, init, h);
    }
  }

  /** How often a hart is listed. */
  ghost function Times(ids: seq<nat>, h: nat): nat {
    if ids == [] then 0 else Times(ids[..|ids| - 1], h) + (if ids[|ids| - 1] == h then 1 else 0)
  }

  /** The sender takes it at once: an interrupt, or a fence for each time it is listed. */
  lemma {:induction false} SentSelf(harts: seq<Hart>, me: nat, signal: Signal, ids: seq<nat>)
    requires me < |harts| && forall k :: 0 <= k < |ids| ==> ids[k] < |harts|
    ensures var h, r, n := harts[me], SentAll(harts, me, signal, ids)[me], Times(ids, me);
            && (n > 0 <==> me in ids)
            && r == if signal == Ipi then h.(mode := h.mode.(ssip := h.mode.ssip || n > 0))
                    else h.(fences := h.fences + n)
    decreases |ids|
  {
    if ids != [] {
      var init := ids[..|ids| - 1];
      assert ids == init + [ids[|ids| - 1]];
      SentSelf(harts, me, signal, init);
    }
  }

  /** Harts other than the one that steps: one that hart_start finds stopped has the start in its mailbox,
      and is stopped no longer; one that is sent a signal, when all listed harts exist, has that in its
      mailbox; all others are untouched. */
  lemma OthersMean(harts: seq<Hart>, i: nat, s: Step, h: nat)
    requires i < |harts| && h < |harts| && h != i && s.Stepped?
    ensures var r := Acted(harts, i, s)[h];
            match s.action
            case HartStart(target, addr, opaque_) =>
              if target == h && harts[h].parked
              then r == harts[h].(start := true, parked := false, addr := addr, opaque_ := opaque_) else r == harts[h]
            case Send(signal, ids) =>
              if (forall k :: 0 <= k < |ids| ==> ids[k] < |harts|) && h in ids
              then r == if signal == Ipi then harts[h].(ipi := true) else harts[h].(fence := true)
              else r == harts[h]
            case _ => r == harts[h]
  {
    hide SentAll;
    if s.action.Send? && forall k :: 0 <= k < |s.action.ids| ==> s.action.ids[k] < |harts| {
      SentOther(harts[i := Stepping(harts[i], s)], i, s.action.signal, s.action.ids, h);
    }
  }

  /** The hart that steps goes on where its instruction leads; a wfi makes it wait and a hart_stop
      stops it. */
  predicate GoesOn(h: Hart, s: Step, r: Hart)
    requires s.Stepped?
  {
    && r.pc == s.pc && r.mode == s.mode.(ssip := r.mode.ssip) && (s.mode.ssip ==> r.mode.ssip)
    && r.start == h.start && r.instret == h.instret + (if s.retires then 1 else 0)
    && (r.parked <==> s.action.HartStop?) && (r.waiting <==> h.waiting || s.action.Wfi?)
  }

  lemma OwnMeans(harts: seq<Hart>, i: nat, s: Step)
    requires i < |harts| && !harts[i].parked && s.Stepped?
    ensures GoesOn(harts[i], s, Acted(harts, i, s)[i])
  {
    hide Acted, GoesOn;
    if s.action.Send? {
      SenderMeans(harts, i, s);
    } else {
      CallerMeans(harts, i, s);
    }
  }

  lemma CallerMeans(harts: seq<Hart>, i: nat, s: Step)
    requires i < |harts| && !harts[i].parked && s.Stepped? && !s.action.Send?
    ensures GoesOn(harts[i], s, Acted(harts, i, s)[i])
  {
  }

  lemma SenderMeans(harts: seq<Hart>, i: nat, s: Step)
    requires i < |harts| && !harts[i].parked && s.Stepped? && s.action.Send?
    ensures GoesOn(harts[i], s, Acted(harts, i, s)[i])
  {
    hide SentAll, Times, StartPosted, StartResult;
    if forall k :: 0 <= k < |s.action.ids| ==> s.action.ids[k] < |harts| {
      SentSelf(harts[i := Stepping(harts[i], s)], i, s.action.signal, s.action.ids);
    }
  }

  /** What a call answers in a0, with a zero in a1: 0 for success, -3 when a hart named does not exist,
      -6 when the hart to start is not stopped. Without a call they are the instruction's. */
  lemma AnswerMeans(harts: seq<Hart>, i: nat, s: Step)
    requires i < |harts| && !harts[i].parked && s.Stepped?
    ensures var r := Acted(harts, i, s)[i];
            (r.a0, r.a1) ==
            match s.action
            case HartStop => (0, 0)
            case HartStart(target, _, _) =>
              (if target >= |harts| then -3 else if harts[target].parked then 0 else -6, 0)
            case Send(_, ids) => (if forall k :: 0 <= k < |ids| ==> ids[k] < |harts| then 0 else -3, 0)
            case _ => (s.a0, s.a1)
  {
    hide SentAll;
  }
}
