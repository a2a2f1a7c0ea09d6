/** What a hart does to the harts around it: steps, mailboxes, and the calls that start, stop and
    signal harts (`src/cpu/mod.rs`, `src/sbi.rs`). */
module HartControl {
  import opened Hsm
  import opened Prelude

  /** The control state a start resets, and the supervisor software interrupt an IPI raises. */
  datatype Mode = Mode(priv: nat, satp: nat, sie: bool, spie: bool, reserved: bool, ssip: bool)

  /** The part of a hart the scheduler and the SBI share. `start`, `ipi` and `fence` are the bits of
      its mailbox; `fences` counts how often its translation and decode caches were dropped. */
  datatype Hart = Hart(parked: bool, start: bool, addr: nat, opaque_: nat, ipi: bool, fence: bool, waiting: bool,
                       pc: nat, a0: int, a1: nat, mode: Mode, fences: nat, instret: nat, roundStart: nat)

  datatype Signal = Ipi | Fence

  datatype Action =
    | Other
    | Wfi
    | HartStart(target: nat, addr: nat, opaque_: nat)
    | HartStop
    | Send(signal: Signal, ids: seq<nat>)

  /** One step: a fatal trap, or an instruction (or a trap taken, which retires nothing). */
  datatype Step =
    | Fatal
    | Stepped(action: Action, pc: nat, a0: int, a1: nat, mode: Mode, retires: bool, halts: bool, mmio: bool)

  /** Everything the machine does not decide itself, in the order it is asked. */
  datatype World = World(
    step: nat -> Step,
    pending: nat -> bool,
    stop: nat -> bool,
    io: nat -> bool,
    input: nat -> bool,
    /** The timer deadline of hart h, and its supervisor one if it has that. */
    mtimecmp: (nat, nat) -> nat,
    stimecmp: (nat, nat) -> Option<nat>)

  function LifeIn(h: Hart): Life {
    if h.start then StartPending(h.addr, h.opaque_) else if h.parked then Stopped else Started
  }

  // --- what a step and a mailbox do ------------------------------------------------------------

  /** The SBI's answer to a call: an error code and a zero value. */
  function Answered(h: Hart, error: int): Hart { h.(a0 := error, a1 := 0) }

  /** A signal takes effect on the hart it is for. */
  function Signalled(h: Hart, signal: Signal): Hart {
    match signal
    case Ipi => h.(mode := h.mode.(ssip := true))
    case Fence => h.(fences := h.fences + 1)
  }

  /** A signal is left in another hart's mailbox. */
  function Posted(h: Hart, signal: Signal): Hart {
    match signal
    case Ipi => h.(ipi := true)
    case Fence => h.(fence := true)
  }

  /** Supervisor mode at the call's address, translation and interrupts off, no reservation, caches
      dropped, its own id and the call's argument in a0 and a1. */
  function StartedAt(h: Hart, id: nat): Hart {
    h.(start := false, parked := false, waiting := false, pc := h.addr, a0 := id, a1 := h.opaque_,
       mode := h.mode.(priv := 1, satp := 0, sie := false, spie := false, reserved := false), fences := h.fences + 1)
  }

  /** A hart after it has emptied its mailbox. */
  function Emptied(h: Hart, id: nat): Hart {
    var h1 := if h.ipi then Signalled(h.(ipi := false), Ipi) else h;
    var h2 := if h1.fence then Signalled(h1.(fence := false), Fence) else h1;
    if h2.start then StartedAt(h2, id) else h2
  }

  /** A signal sent by `me` to every listed hart. */
  function SentAll(harts: seq<Hart>, me: nat, signal: Signal, ids: seq<nat>): (r: seq<Hart>)
    requires forall k :: 0 <= k < |ids| ==> ids[k] < |harts|
    ensures |r| == |harts|
    decreases |ids|
  {
    if ids == [] then harts
    else
      var before := SentAll(harts, me, signal, ids[..|ids| - 1]);
      var id := ids[|ids| - 1];
      before[id := if id == me then Signalled(before[id], signal) else Posted(before[id], signal)]
  }

  /** What hart_start answers. */
  function StartResult(harts: seq<Hart>, target: nat): int {
    if target >= |harts| then ERR_INVALID_PARAM
    else if harts[target].parked then SUCCESS else ERR_ALREADY_AVAILABLE
  }

  /** The harts after a hart_start has been posted. */
  function StartPosted(harts: seq<Hart>, target: nat, addr: nat, opaque_: nat): (r: seq<Hart>)
    ensures |r| == |harts|
  {
    if StartResult(harts, target) != SUCCESS then harts
    else harts[target := harts[target].(addr := addr, opaque_ := opaque_, start := true, parked := false)]
  }

  /** A hart after an instruction, calls aside. */
  function Stepping(h: Hart, s: Step): Hart
    requires s.Stepped?
  {
    h.(pc := s.pc, a0 := s.a0, a1 := s.a1, mode := s.mode, instret := h.instret + (if s.retires then 1 else 0))
  }

  function RegsOf(h: Hart): Regs {
    Regs(h.pc, h.a0, h.a1, h.mode.priv, h.mode.satp, h.mode.sie, h.mode.spie, h.mode.reserved)
  }

  /** All harts after hart i has taken a step. */
  function Acted(harts: seq<Hart>, i: nat, s: Step): (r: seq<Hart>)
    requires i < |harts|
    ensures |r| == |harts|
  {
    if s.Fatal? then harts
    else
      var h := Stepping(harts[i], s);
      var hs := harts[i := h];
      match s.action
      case Other => hs
      case Wfi => hs[i := h.(waiting := true)]
      case HartStop => hs[i := Answered(h.(parked := true), SUCCESS)]
      case HartStart(target, addr, opaque_) =>
        var posted := StartPosted(hs, target, addr, opaque_);
        posted[i := Answered(posted[i], StartResult(hs, target))]
      case Send(signal, ids) =>
        if exists k :: 0 <= k < |ids| && ids[k] >= |harts| then hs[i := Answered(h, ERR_INVALID_PARAM)]
        else
          var sent := SentAll(hs, i, signal, ids);
          sent[i := Answered(sent[i], SUCCESS)]
  }

  /** What a step adds to the history. */
  function Told(harts: seq<Hart>, i: nat, s: Step): seq<Entry>
    requires i < |harts|
  {
    var e := Executed(i, RegsOf(harts[i]));
    if s.Stepped? && s.action.HartStop? then [e, StopCall(i)]
    else if s.Stepped? && s.action.HartStart? then
      var a := s.action;
      [e, StartCall(a.target, a.addr, a.opaque_, StartResult(harts, a.target))]
    else [e]
  }

  /** A start waiting in a mailbox is still there, with the same arguments. */
  predicate StartKept(h: Hart, h': Hart) {
    h.start ==> h'.start && h'.addr == h.addr && h'.opaque_ == h.opaque_
  }

  predicate StartsKept(harts: seq<Hart>, harts': seq<Hart>, but: nat)
    requires |harts| == |harts'|
  {
    forall h {:trigger harts[h]} {:trigger harts'[h]} :: 0 <= h < |harts| && h != but ==> StartKept(harts[h], harts'[h])
  }

  /** The hart has taken one step. */
  predicate Advanced(h: Hart, h': Hart) {
    h'.roundStart == h.roundStart && h.instret <= h'.instret <= h.instret + 1 && !h'.start
  }

  /** A signal changes neither a hart's life nor how far it has run. */
  predicate Unmoved(h: Hart, h': Hart) {
    && h'.parked == h.parked && h'.start == h.start && h'.addr == h.addr && h'.opaque_ == h.opaque_
    && h'.instret == h.instret && h'.roundStart == h.roundStart && h'.waiting == h.waiting
  }

  lemma {:induction false} SentAllKeeps(harts: seq<Hart>, me: nat, signal: Signal, ids: seq<nat>, h: nat)
    requires h < |harts| && forall k :: 0 <= k < |ids| ==> ids[k] < |harts|
    ensures Unmoved(harts[h], SentAll(harts, me, signal, ids)[h])
    decreases |ids|
  {
    if ids != [] { SentAllKeeps(harts, me, signal, ids[..|ids| - 1], h); }
  }

  /** What a step does to a hart's own life, to a start waiting for another hart, and to how far they
      have run. */
  lemma ActedOn(harts: seq<Hart>, i: nat, s: Step, h: nat)
    requires i < |harts| && LifeIn(harts[i]) == Started && h < |harts| && StartRuns(harts[h])
    ensures h == i ==> Advanced(harts[h], Acted(harts, i, s)[h])
    ensures h != i ==> StartKept(harts[h], Acted(harts, i, s)[h])
    ensures !(s.Stepped? && (s.action.HartStop? || s.action.HartStart?)) ==>
      LifeIn(Acted(harts, i, s)[h]) == LifeIn(harts[h]) && StartRuns(Acted(harts, i, s)[h])
  {
    hide SentAll;
    if s.Stepped? && s.action.Send? && forall k :: 0 <= k < |s.action.ids| ==> s.action.ids[k] < |harts| {
      SentAllKeeps(harts[i := Stepping(harts[i], s)], i, s.action.signal, s.action.ids, h);
    }
  }

  /** A step advances its own hart, and no start waiting for another is lost or changed. */
  lemma ActedKeeps(harts: seq<Hart>, i: nat, s: Step)
    requires i < |harts| && LifeIn(harts[i]) == Started
    requires forall h {:trigger harts[h]} :: 0 <= h < |harts| ==> StartRuns(harts[h])
    ensures Advanced(harts[i], Acted(harts, i, s)[i]) && StartsKept(harts, Acted(harts, i, s), i)
  {
    hide Acted, Advanced, StartKept, LifeIn;
    ActedOn(harts, i, s, i);
    forall h {:trigger harts[h]} | 0 <= h < |harts| && h != i ensures StartKept(harts[h], Acted(harts, i, s)[h]) {
      ActedOn(harts, i, s, h);
    }
  }

  // --- flags and history --------------------------------------------------------------------------

  /** The mailbox flags agree with the history, and no parked hart has a start waiting. */
  ghost predicate Agree(boot: seq<Life>, log: seq<Entry>, harts: seq<Hart>) {
    && Legal(boot, log) && |harts| == |boot|
    && forall h :: 0 <= h < |harts| ==> LifeOf(boot, log, h) == LifeIn(harts[h]) && StartRuns(harts[h])
  }

  predicate StartRuns(h: Hart) { h.start ==> !h.parked }

  lemma LifeKnown(boot: seq<Life>, log: seq<Entry>, harts: seq<Hart>, i: nat)
    requires Agree(boot, log, harts) && i < |harts|
    ensures |harts| == |boot| && LifeOf(boot, log, i) == LifeIn(harts[i]) && StartRuns(harts[i])
  {
    hide Legal, LifeOf, LifeIn;
  }

  lemma SameSize(boot: seq<Life>, log: seq<Entry>, harts: seq<Hart>)
    requires Agree(boot, log, harts)
    ensures |harts| == |boot|
  {
    hide Legal, LifeOf;
  }

  /** An allowed event that moves only its own hart's life, as it should, keeps flags and history
      together. */
  lemma AgreeMove(boot: seq<Life>, log: seq<Entry>, harts: seq<Hart>, e: Entry, harts': seq<Hart>)
    requires Agree(boot, log, harts) && Allowed(boot, log, e) && |harts'| == |harts|
    requires forall h :: 0 <= h < |harts| && h != e.h ==> LifeIn(harts'[h]) == LifeIn(harts[h]) && StartRuns(harts'[h])
    requires e.h < |harts| ==> LifeIn(harts'[e.h]) == Moved(LifeIn(harts[e.h]), e) && StartRuns(harts'[e.h])
    ensures Agree(boot, log + [e], harts')
  {
    hide Legal, LifeOf, LifeIn, Allowed, Moved, StartRuns;
    LegalExtends(boot, log, e);
  }

  /** Changes that move no hart's life keep flags and history together. */
  lemma AgreeStill(boot: seq<Life>, log: seq<Entry>, harts: seq<Hart>, harts': seq<Hart>)
    requires Agree(boot, log, harts) && |harts'| == |harts|
    requires forall h :: 0 <= h < |harts| ==> LifeIn(harts'[h]) == LifeIn(harts[h]) && StartRuns(harts'[h])
    ensures Agree(boot, log, harts')
  {
    hide Legal, LifeOf, LifeIn, StartRuns;
  }

  lemma LogExecuted(boot: seq<Life>, log: seq<Entry>, harts: seq<Hart>, i: nat, regs: Regs)
    requires Agree(boot, log, harts) && i < |harts| && LifeIn(harts[i]) == Started
    ensures Agree(boot, log + [Executed(i, regs)], harts)
  {
    hide Legal, LifeOf, LifeIn;
    LifeKnown(boot, log, harts, i);
    AgreeMove(boot, log, harts, Executed(i, regs), harts);
  }

  /** A step keeps flags and history together. */
  lemma ActedAgrees(boot: seq<Life>, log: seq<Entry>, harts: seq<Hart>, i: nat, s: Step)
    requires Agree(boot, log, harts) && i < |harts| && LifeIn(harts[i]) == Started
    ensures Agree(boot, log + Told(harts, i, s), Acted(harts, i, s))
  {
    hide Legal, LifeOf, Agree, SentAll;
    LogExecuted(boot, log, harts, i, RegsOf(harts[i]));
    var log1, r := log + [Executed(i, RegsOf(harts[i]))], Acted(harts, i, s);
    AllStartsRun(boot, log, harts);
    SameSize(boot, log, harts);
    if s.Stepped? && s.action.HartStop? {
      LifeKnown(boot, log1, harts, i);
      AgreeMove(boot, log1, harts, StopCall(i), r);
      assert log1 + [StopCall(i)] == log + Told(harts, i, s);
    } else if s.Stepped? && s.action.HartStart? {
      var a := s.action;
      var e := StartCall(a.target, a.addr, a.opaque_, StartResult(harts, a.target));
      if a.target < |harts| { LifeKnown(boot, log1, harts, a.target); }
      AgreeMove(boot, log1, harts, e, r);
      assert log1 + [e] == log + Told(harts, i, s);
    } else {
      forall h | 0 <= h < |harts| ensures LifeIn(r[h]) == LifeIn(harts[h]) && StartRuns(r[h]) {
        ActedOn(harts, i, s, h);
      }
      AgreeStill(boot, log1, harts, r);
    }
  }

  lemma AllStartsRun(boot: seq<Life>, log: seq<Entry>, harts: seq<Hart>)
    requires Agree(boot, log, harts)
    ensures forall h {:trigger harts[h]} :: 0 <= h < |harts| ==> StartRuns(harts[h])
  {
    hide Legal, LifeOf, LifeIn;
  }

  /** Emptying a mailbox keeps them together; a start waiting in it is a beginning. */
  lemma EmptiedAgrees(boot: seq<Life>, log: seq<Entry>, harts: seq<Hart>, i: nat)
    requires Agree(boot, log, harts) && i < |harts|
    ensures var h := harts[i];
            Agree(boot, if h.start then log + [Begin(i, h.addr, h.opaque_)] else log, harts[i := Emptied(h, i)])
  {
    hide Legal, LifeOf, Agree;
    AllStartsRun(boot, log, harts);
    LifeKnown(boot, log, harts, i);
    var h := harts[i];
    if h.start {
      AgreeMove(boot, log, harts, Begin(i, h.addr, h.opaque_), harts[i := Emptied(h, i)]);
    } else {
      AgreeStill(boot, log, harts, harts[i := Emptied(h, i)]);
    }
  }

  predicate IsStep(e: Entry, h: nat) { e.Executed? && e.h == h }

  // --- where a started hart begins ----------------------------------------------------------------

  /** What a hart itself does; a hart_start is its caller's doing. */
  predicate Own(e: Entry, h: nat) { e.h == h && !e.StartCall? }

  /** The last thing hart h itself did, or -1. */
  ghost function LastOwn(log: seq<Entry>, h: nat): (k: int)
    ensures -1 <= k < |log| && (k >= 0 ==> Own(log[k], h))
    ensures forall n :: k < n < |log| ==> !Own(log[n], h)
  {
    if log == [] then -1 else if Own(log[|log| - 1], h) then |log| - 1 else LastOwn(log[..|log| - 1], h)
  }

  /** The registers a beginning calls for: the call's address and argument, the hart's own number,
      supervisor mode without translation, interrupts or a reservation. */
  predicate AsCalled(r: Regs, begin: Entry)
    requires begin.Begin?
  {
    && r.pc == begin.addr && r.a0 == begin.h && r.a1 == begin.opaque_
    && r.priv == 1 && r.satp == 0 && !r.sie && !r.spie && !r.reserved
  }

  /** A hart that has begun and done nothing since is as its call asked. */
  ghost predicate Poised(log: seq<Entry>, h: nat, regs: Regs) {
    var k := LastOwn(log, h);
    k >= 0 && log[k].Begin? ==> AsCalled(regs, log[k])
  }

  /** Every hart's first step after a beginning is from the registers its call asked for. */
  ghost predicate EntersRight(log: seq<Entry>) {
    forall k {:trigger log[k]} :: 0 <= k < |log| && log[k].Executed? ==> Poised(log[..k], log[k].h, log[k].regs)
  }

  ghost predicate Entering(log: seq<Entry>, harts: seq<Hart>) {
    EntersRight(log) && forall h {:trigger harts[h]} :: 0 <= h < |harts| ==> Poised(log, h, RegsOf(harts[h]))
  }

  lemma LastOwnOf(log: seq<Entry>, e: Entry, h: nat)
    ensures LastOwn(log + [e], h) == if Own(e, h) then |log| else LastOwn(log, h)
  {
    assert (log + [e])[..|log|] == log;
  }

  lemma EntersOn(log: seq<Entry>, e: Entry)
    requires EntersRight(log) && (e.Executed? ==> Poised(log, e.h, e.regs))
    ensures EntersRight(log + [e])
  {
    hide Poised;
    var l := log + [e];
    forall k {:trigger l[k]} | 0 <= k < |l| && l[k].Executed? ensures Poised(l[..k], l[k].h, l[k].regs) {
      if k < |log| { assert l[..k] == log[..k] && l[k] == log[k]; } else { assert l[..k] == log; }
    }
  }

  lemma PoisedOn(log: seq<Entry>, e: Entry, h: nat, regs: Regs)
    requires Poised(log, h, regs) || Own(e, h)
    requires Own(e, h) && e.Begin? ==> AsCalled(regs, e)
    ensures Poised(log + [e], h, regs)
  {
    LastOwnOf(log, e, h);
  }

  /** One more entry, with every other hart's registers left alone. */
  lemma EnteringOn(log: seq<Entry>, harts: seq<Hart>, e: Entry, harts': seq<Hart>)
    requires Entering(log, harts) && |harts'| == |harts| && (e.Executed? ==> Poised(log, e.h, e.regs))
    requires forall h {:trigger harts'[h]} :: 0 <= h < |harts| && !Own(e, h) ==> RegsOf(harts'[h]) == RegsOf(harts[h])
    requires e.Begin? && e.h < |harts| ==> AsCalled(RegsOf(harts'[e.h]), e)
    ensures Entering(log + [e], harts')
  {
    hide Poised, EntersRight, AsCalled, RegsOf, LastOwn;
    EntersOn(log, e);
    forall h {:trigger harts'[h]} | 0 <= h < |harts| ensures Poised(log + [e], h, RegsOf(harts'[h])) {
      assert Poised(log, h, RegsOf(harts[h]));
      PoisedOn(log, e, h, RegsOf(harts'[h]));
    }
  }

  lemma EnteringStill(log: seq<Entry>, harts: seq<Hart>, harts': seq<Hart>)
    requires Entering(log, harts) && |harts'| == |harts|
    requires forall h {:trigger harts'[h]} :: 0 <= h < |harts| ==> RegsOf(harts'[h]) == RegsOf(harts[h])
    ensures Entering(log, harts')
  {
    hide Poised, EntersRight, RegsOf;
    forall h {:trigger harts'[h]} | 0 <= h < |harts| ensures Poised(log, h, RegsOf(harts'[h])) {
      assert Poised(log, h, RegsOf(harts[h]));
    }
  }

  lemma {:induction false} SentAllRegs(harts: seq<Hart>, me: nat, signal: Signal, ids: seq<nat>, h: nat)
    requires h < |harts| && forall k :: 0 <= k < |ids| ==> ids[k] < |harts|
    ensures RegsOf(SentAll(harts, me, signal, ids)[h]) == RegsOf(harts[h])
    decreases |ids|
  {
    if ids != [] { SentAllRegs(harts, me, signal, ids[..|ids| - 1], h); }
  }

  /** No step touches another hart's registers. */
  lemma ActedRegs(harts: seq<Hart>, i: nat, s: Step, h: nat)
    requires i < |harts| && h < |harts| && h != i
    ensures RegsOf(Acted(harts, i, s)[h]) == RegsOf(harts[h])
  {
    hide SentAll;
    if s.Stepped? && s.action.Send? && forall k :: 0 <= k < |s.action.ids| ==> s.action.ids[k] < |harts| {
      SentAllRegs(harts[i := Stepping(harts[i], s)], i, s.action.signal, s.action.ids, h);
    }
  }

  lemma ActedEnters(log: seq<Entry>, harts: seq<Hart>, i: nat, s: Step)
    requires Entering(log, harts) && i < |harts|
    ensures Entering(log + Told(harts, i, s), Acted(harts, i, s))
  {
    hide Acted, Poised, EntersRight, LastOwn;
    var e, r, t := Executed(i, RegsOf(harts[i])), Acted(harts, i, s), Told(harts, i, s);
    forall h {:trigger r[h]} | 0 <= h < |harts| && h != i ensures RegsOf(r[h]) == RegsOf(harts[h]) {
      ActedRegs(harts, i, s, h);
    }
    assert Poised(log, i, RegsOf(harts[i]));
    hide RegsOf;
    EnteringOn(log, harts, e, r);
    if |t| == 2 {
      EnteringOn(log + [e], r, t[1], r);
      assert log + [e] + [t[1]] == log + t;
    } else {
      assert [e] == t;
    }
  }

  /** What an emptied mailbox leaves: a start has brought the hart up as its call asked, an IPI has
      raised the supervisor software interrupt, a fence has dropped the caches, and nothing waits. */
  lemma EmptiedMeans(h: Hart, id: nat)
    ensures var r := Emptied(h, id);
            && !r.start && !r.ipi && !r.fence && r.instret == h.instret && r.roundStart == h.roundStart
            && (h.start ==> AsCalled(RegsOf(r), Begin(id, h.addr, h.opaque_)) && !r.parked && !r.waiting)
            && (!h.start ==> RegsOf(r) == RegsOf(h) && r.parked == h.parked && r.waiting == h.waiting)
            && (r.mode.ssip <==> h.mode.ssip || h.ipi)
            && r.fences == h.fences + (if h.fence then 1 else 0) + (if h.start then 1 else 0)
  {
  }

  lemma EmptiedEnters(log: seq<Entry>, harts: seq<Hart>, i: nat)
    requires Entering(log, harts) && i < |harts|
    ensures var h := harts[i];
            Entering(if h.start then log + [Begin(i, h.addr, h.opaque_)] else log, harts[i := Emptied(h, i)])
  {
    hide Emptied, Entering, AsCalled, RegsOf;
    var h, r := harts[i], harts[i := Emptied(harts[i], i)];
    EmptiedMeans(h, i);
    if h.start {
      EnteringOn(log, harts, Begin(i, h.addr, h.opaque_), r);
    } else {
      EnteringStill(log, harts, r);
    }
  }

  /** How many steps hart h has executed. */
  ghost function Steps(log: seq<Entry>, h: nat): nat {
    if log == [] then 0 else Steps(log[..|log| - 1], h) + (if IsStep(log[|log| - 1], h) then 1 else 0)
  }

  lemma StepsOf(log: seq<Entry>, e: Entry)
    ensures forall h: nat {:trigger Steps(log + [e], h)} ::
      Steps(log + [e], h) == Steps(log, h) + (if IsStep(e, h) then 1 else 0)
  {
    assert (log + [e])[..|log|] == log;
  }

  /** Between two moments hart i has executed n steps and the others none. */
  ghost predicate Counted(log: seq<Entry>, log': seq<Entry>, i: nat, n: nat) {
    forall h: nat {:trigger Steps(log', h)} :: Steps(log', h) == Steps(log, h) + (if h == i then n else 0)
  }

  lemma CountedOn(log: seq<Entry>, log1: seq<Entry>, log2: seq<Entry>, i: nat, n: nat, m: nat)
    requires Counted(log, log1, i, n) && Counted(log1, log2, i, m)
    ensures Counted(log, log2, i, n + m)
  {
    hide Steps;
    forall h: nat ensures Steps(log2, h) == Steps(log, h) + (if h == i then n + m else 0) {
      assert Steps(log1, h) == Steps(log, h) + (if h == i then n else 0);
    }
  }

  lemma NoneCounted(log: seq<Entry>, i: nat)
    ensures Counted(log, log, i, 0)
  {
  }

  /** The first harts have executed so many steps each, the others none. */
  ghost predicate Tally(log: seq<Entry>, log': seq<Entry>, ran: seq<nat>) {
    forall h: nat {:trigger Steps(log', h)} :: Steps(log', h) == Steps(log, h) + (if h < |ran| then ran[h] else 0)
  }

  ghost predicate AtMost(log: seq<Entry>, log': seq<Entry>, n: nat) {
    forall h: nat {:trigger Steps(log', h)} :: Steps(log', h) <= Steps(log, h) + n
  }

  lemma NoTally(log: seq<Entry>, n: nat)
    ensures Tally(log, log, []) && AtMost(log, log, n)
  {
  }

  lemma TallyOn(log: seq<Entry>, log1: seq<Entry>, log2: seq<Entry>, ran: seq<nat>, used: nat)
    requires Tally(log, log1, ran) && Counted(log1, log2, |ran|, used)
    ensures Tally(log, log2, ran + [used])
  {
    hide Steps;
    forall h: nat ensures Steps(log2, h) == Steps(log, h) + (if h < |ran| + 1 then (ran + [used])[h] else 0) {
      assert Steps(log1, h) == Steps(log, h) + (if h < |ran| then ran[h] else 0);
    }
  }

  lemma AtMostOn(log: seq<Entry>, log1: seq<Entry>, log2: seq<Entry>, ran: seq<nat>, used: nat, n: nat)
    requires Tally(log, log1, ran) && AtMost(log, log1, n) && Counted(log1, log2, |ran|, used) && used <= n
    ensures AtMost(log, log2, n)
  {
    hide Steps;
    forall h: nat ensures Steps(log2, h) <= Steps(log, h) + n {
      assert Steps(log1, h) == Steps(log, h) + (if h < |ran| then ran[h] else 0);
    }
  }

  lemma ToldSteps(log: seq<Entry>, harts: seq<Hart>, i: nat, s: Step)
    requires i < |harts|
    ensures Counted(log, log + Told(harts, i, s), i, 1)
  {
    hide Steps;
    var t := Told(harts, i, s);
    StepsOf(log, t[0]);
    if |t| == 2 {
      StepsOf(log + [t[0]], t[1]);
      assert log + [t[0]] + [t[1]] == log + t;
    } else {
      assert [t[0]] == t;
    }
  }

  // --- starts are delivered -----------------------------------------------------------------------

  /** Since entry `from`, hart h has begun at this address with this argument. */
  ghost predicate Begun(log: seq<Entry>, from: nat, h: nat, addr: nat, opaque_: nat) {
    exists k {:trigger log[k]} :: from <= k < |log| && log[k] == Begin(h, addr, opaque_)
  }

  lemma BegunStays(log: seq<Entry>, log': seq<Entry>, from: nat, h: nat, addr: nat, opaque_: nat)
    requires Begun(log, from, h, addr, opaque_) && log <= log'
    ensures Begun(log', from, h, addr, opaque_)
  {
    var k :| from <= k < |log| && log[k] == Begin(h, addr, opaque_);
    assert log'[k] == log[k];
  }

  /** The starts waiting for the first i harts have begun. */
  ghost predicate Served(log: seq<Entry>, from: nat, first: seq<Hart>, i: nat)
    requires i <= |first|
  {
    forall h {:trigger first[h]} :: 0 <= h < i && first[h].start ==>
      Begun(log, from, h, first[h].addr, first[h].opaque_)
  }

  lemma NoneServed(log: seq<Entry>, from: nat, first: seq<Hart>)
    ensures Served(log, from, first, 0)
  {
  }

  lemma ServedOn(log: seq<Entry>, log': seq<Entry>, from: nat, first: seq<Hart>, i: nat)
    requires i < |first| && Served(log, from, first, i) && log <= log'
    requires first[i].start ==> Begun(log', from, i, first[i].addr, first[i].opaque_)
    ensures Served(log', from, first, i + 1)
  {
    hide Begun;
    forall h {:trigger first[h]} | 0 <= h < i && first[h].start
      ensures Begun(log', from, h, first[h].addr, first[h].opaque_)
    {
      BegunStays(log, log', from, h, first[h].addr, first[h].opaque_);
    }
  }

  /** Every start granted before entry `from` has been answered by a beginning before entry `until`. */
  ghost predicate AllBegun(log: seq<Entry>, from: nat, until: nat)
    requires from <= until <= |log|
  {
    forall i {:trigger log[i]} :: 0 <= i < from && log[i].StartCall? && log[i].result == SUCCESS ==>
      Begun(log[..until], i, log[i].h, log[i].addr, log[i].opaque_)
  }

  lemma AllBegunStays(log: seq<Entry>, log': seq<Entry>, from: nat, until: nat)
    requires from <= until <= |log| && AllBegun(log, from, until) && log <= log'
    ensures AllBegun(log', from, until)
  {
    hide Begun;
    assert log'[..until] == log[..until];
    forall i {:trigger log'[i]} | 0 <= i < from && log'[i].StartCall? && log'[i].result == SUCCESS
      ensures Begun(log'[..until], i, log'[i].h, log'[i].addr, log'[i].opaque_)
    {
      assert log'[i] == log[i];
    }
  }

  /** If every start waiting when a round began has begun in it, then every start granted before the
      round has been answered by its end. */
  lemma RoundDelivers(boot: seq<Life>, log: seq<Entry>, harts: seq<Hart>, log': seq<Entry>)
    requires Agree(boot, log, harts) && log <= log' && Legal(boot, log')
    requires Served(log', |log|, harts, |harts|)
    ensures AllBegun(log', |log|, |log'|)
  {
    hide Legal, LifeOf;
    assert log'[..|log'|] == log';
    forall i {:trigger log'[i]} | 0 <= i < |log| && log'[i].StartCall? && log'[i].result == SUCCESS
      ensures Begun(log', i, log'[i].h, log'[i].addr, log'[i].opaque_)
    {
      AnsweredByRound(boot, log, harts, log', i);
    }
  }

  lemma AnsweredByRound(boot: seq<Life>, log: seq<Entry>, harts: seq<Hart>, log': seq<Entry>, i: nat)
    requires Agree(boot, log, harts) && log <= log' && Legal(boot, log')
    requires i < |log| && log'[i].StartCall? && log'[i].result == SUCCESS
    requires Served(log', |log|, harts, |harts|)
    ensures Begun(log', i, log'[i].h, log'[i].addr, log'[i].opaque_)
  {
    hide Legal, LifeOf, Allowed;
    var e := log[i];
    assert e == log'[i];
    GrantedExists(boot, log', i);
    if exists k :: i < k < |log| && log[k].Begin? && log[k].h == e.h {
      var k := FirstBegin(log, i, e.h);
      GrantedStartIsKept(boot, log, i, k);
      assert log'[k] == log[k];
    } else {
      PendingUntilBegin(boot, log, i, |log|);
      assert log[..|log|] == log;
      LifeKnown(boot, log, harts, e.h);
      BegunSince(log', i, |log|, e.h, e.addr, e.opaque_);
    }
  }

  lemma GrantedExists(boot: seq<Life>, log: seq<Entry>, i: nat)
    requires Legal(boot, log) && i < |log| && log[i].StartCall? && log[i].result == SUCCESS
    ensures log[i].h < |boot|
  {
    hide LifeOf;
    assert Allowed(boot, log[..i], log[i]);
  }

  lemma {:induction false} FirstBegin(log: seq<Entry>, i: nat, h: nat) returns (k: nat)
    requires exists j :: i < j < |log| && log[j].Begin? && log[j].h == h
    ensures i < k < |log| && log[k].Begin? && log[k].h == h
    ensures forall j :: i < j < k && log[j].Begin? ==> log[j].h != h
  {
    k := i + 1;
    while !(log[k].Begin? && log[k].h == h)
      invariant i < k < |log| && forall j :: i < j < k && log[j].Begin? ==> log[j].h != h
      decreases |log| - k
    {
      k := k + 1;
    }
  }

  lemma BegunSince(log: seq<Entry>, from: nat, later: nat, h: nat, addr: nat, opaque_: nat)
    requires from <= later && Begun(log, later, h, addr, opaque_)
    ensures Begun(log, from, h, addr, opaque_)
  {
    var k :| later <= k < |log| && log[k] == Begin(h, addr, opaque_);
    assert log[k] == Begin(h, addr, opaque_);
  }
}
