/** The deterministic round-robin scheduler and the idle path (`src/platform.rs`,
    `src/cpu/mod.rs`). What instructions do, when interrupts are pending, and what devices and the
    host have to say come from outside. */
module Platform {
  import opened Clock
  import opened HartControl
  import opened Hsm
  import opened Prelude

  datatype Outcome = Finished | Fault | Stalled

  const HORIZON: nat := 0x10_0000_0000

  /** The largest of some counts. */
  function Most(s: seq<nat>): nat { if s == [] then 0 else Max(Most(s[..|s| - 1]), s[|s| - 1]) }

  lemma MostGrows(s: seq<nat>, n: nat)
    ensures Most(s + [n]) == Max(Most(s), n)
  {
    assert (s + [n])[..|s|] == s;
  }

  predicate Ascending(s: seq<nat>) { forall i, j :: 0 <= i < j < |s| ==> s[i] <= s[j] }

  predicate UpTo(s: seq<nat>, t: nat) { forall i :: 0 <= i < |s| ==> s[i] <= t }

  lemma ReadOn(s: seq<nat>, t: nat)
    requires Ascending(s) && UpTo(s, t)
    ensures Ascending(s + [t]) && UpTo(s + [t], t)
  {
  }

  class Platform {
    var harts: seq<Hart>
    const quantum: nat
    var retired: nat
    const clock: Clock
    var halted: bool
    const world: World
    /** How many questions the world has answered. */
    var asked: nat
    var touched: bool

    /** The harts' states at boot, and everything since. */
    ghost const boot: seq<Life>
    ghost var log: seq<Entry>
    /** The times each hart could have read, in order. */
    ghost var times: seq<seq<nat>>

    ghost predicate Valid()
      reads this
    {
      Agree(boot, log, harts) && Entering(log, harts) && |times| == |harts|
    }

    /** No hart has been shown a time later than t, and none has seen time go back. */
    ghost predicate Shown(t: nat)
      reads `times
    {
      forall h :: 0 <= h < |times| ==> Ascending(times[h]) && UpTo(times[h], t)
    }

    /** The last thing the world said is that an instruction was fatal. */
    predicate Died()
      reads `asked
    {
      asked > 0 && world.step(asked - 1).Fatal?
    }

    constructor (harts: seq<Hart>, quantum: nat, clock: Clock, world: World)
      requires forall h :: 0 <= h < |harts| ==> !harts[h].start
      ensures Valid() && this.harts == harts && this.quantum == quantum && this.clock == clock && this.world == world
      ensures retired == 0 && log == [] && Shown(0) && forall h :: 0 <= h < |boot| ==> !boot[h].StartPending?
    {
      this.harts, this.quantum, this.clock, this.world := harts, quantum, clock, world;
      retired, halted, asked, touched := 0, false, 0, false;
      boot := seq(|harts|, h requires 0 <= h < |harts| => LifeIn(harts[h]));
      log := [];
      times := seq(|harts|, _ => []);
    }

    // --- one hart ------------------------------------------------------------------------------

    /** Take what is in the mailbox: an interrupt, a fence, and last a start, which brings the hart up
        at the address and with the argument of the call. */
    method ApplyMailbox(i: nat)
      requires Valid() && i < |harts|
      modifies `harts, `log
      ensures Valid() && harts == old(harts)[i := Emptied(old(harts)[i], i)]
      ensures var h := old(harts)[i]; log == old(log) + if h.start then [Begin(i, h.addr, h.opaque_)] else []
      ensures log != old(log) ==> !harts[i].parked && AsCalled(RegsOf(harts[i]), log[|log| - 1])
    {
      hide Agree, Entering, AsCalled;
      EmptiedMeans(harts[i], i);
      EmptiedAgrees(boot, log, harts, i);
      EmptiedEnters(log, harts, i);
      var h := harts[i];
      if h.ipi { h := Signalled(h.(ipi := false), Ipi); }
      if h.fence { h := Signalled(h.(fence := false), Fence); }
      if h.start {
        log := log + [Begin(i, h.addr, h.opaque_)];
        h := StartedAt(h, i);
      }
      harts := harts[i := h];
      assert log == old(log) +
        if old(harts)[i].start then [Begin(i, old(harts)[i].addr, old(harts)[i].opaque_)] else [];
    }

    /** Can this hart execute now? Its mailbox is emptied first. Only a hart that is started may run,
        and one that waits only when an interrupt it has enabled is pending, which ends the wait. */
    method Runnable(i: nat) returns (r: bool)
      requires Valid() && i < |harts|
      modifies `harts, `log, `asked
      ensures Valid()
      ensures var h := Emptied(old(harts)[i], i);
              && r == (!h.parked && (h.waiting ==> world.pending(old(asked))))
              && harts == old(harts)[i := if r then h.(waiting := false) else h]
              && asked == old(asked) + (if !h.parked && h.waiting then 1 else 0)
      ensures var h := old(harts)[i]; log == old(log) + if h.start then [Begin(i, h.addr, h.opaque_)] else []
      ensures log != old(log) ==> r && AsCalled(RegsOf(harts[i]), log[|log| - 1])
    {
      hide Agree, Entering, AsCalled;
      EmptiedMeans(harts[i], i);
      ApplyMailbox(i);
      if harts[i].parked { return false; }
      if harts[i].waiting {
        asked := asked + 1;
        if !world.pending(asked - 1) { return false; }
        AllStartsRun(boot, log, harts);
        AgreeStill(boot, log, harts, harts[i := harts[i].(waiting := false)]);
        EnteringStill(log, harts, harts[i := harts[i].(waiting := false)]);
        harts := harts[i := harts[i].(waiting := false)];
      }
      return true;
    }

    /** One step of a started hart. The time it may read is recorded. */
    method StepCore(i: nat) returns (s: Step)
      requires Valid() && i < |harts| && LifeIn(harts[i]) == Started && !harts[i].waiting
      requires Ascending(times[i]) && UpTo(times[i], Now(clock.View(), clock.live))
      modifies `harts, `log, `asked, `times
      ensures Valid() && s == world.step(old(asked)) && asked == old(asked) + 1
      ensures harts == Acted(old(harts), i, s) && log == old(log) + Told(old(harts), i, s)
      ensures times == old(times)[i := times[i]] && Ascending(times[i]) && UpTo(times[i], Now(clock.View(), clock.live))
    {
      hide Agree, Entering, Ascending, UpTo, Now, SentAll;
      s := world.step(asked);
      asked := asked + 1;
      ReadOn(times[i], Now(clock.View(), clock.live));
      times := times[i := times[i] + [Now(clock.View(), clock.live)]];
      ActedAgrees(boot, log, harts, i, s);
      ActedEnters(log, harts, i, s);
      SameSize(boot, log, harts);
      log := log + Told(harts, i, s);
      if s.Fatal? { return; }
      harts := harts[i := harts[i].(pc := s.pc, a0 := s.a0, a1 := s.a1, mode := s.mode,
                                    instret := harts[i].instret + (if s.retires then 1 else 0))];
      match s.action
      case Other =>
      case Wfi => harts := harts[i := harts[i].(waiting := true)];
      case HartStop => harts := harts[i := Answered(harts[i].(parked := true), SUCCESS)];
      case HartStart(target, addr, opaque_) =>
        var result := Start(target, addr, opaque_);
        harts := harts[i := Answered(harts[i], result)];
      case Send(signal, ids) =>
        var result := SendAll(i, signal, ids);
        harts := harts[i := Answered(harts[i], result)];
    }

    /** hart_start: posted exactly to a stopped hart. */
    method Start(target: nat, addr: nat, opaque_: nat) returns (result: int)
      modifies `harts
      ensures result == StartResult(old(harts), target) && harts == StartPosted(old(harts), target, addr, opaque_)
    {
      if target >= |harts| { return ERR_INVALID_PARAM; }
      if !harts[target].parked { return ERR_ALREADY_AVAILABLE; }
      harts := harts[target := harts[target].(addr := addr, opaque_ := opaque_)];
      harts := harts[target := harts[target].(start := true, parked := false)];
      return SUCCESS;
    }

    /** An IPI or a remote fence to every listed hart: at once for the caller, by mailbox for others. */
    method SendAll(me: nat, signal: Signal, ids: seq<nat>) returns (result: int)
      requires me < |harts|
      modifies `harts
      ensures |harts| == |old(harts)|
      ensures if exists k :: 0 <= k < |ids| && ids[k] >= |old(harts)|
              then result == ERR_INVALID_PARAM && harts == old(harts)
              else result == SUCCESS && harts == SentAll(old(harts), me, signal, ids)
    {
      if exists k :: 0 <= k < |ids| && ids[k] >= |harts| { return ERR_INVALID_PARAM; }
      for n := 0 to |ids|
        invariant |harts| == |old(harts)| && harts == SentAll(old(harts), me, signal, ids[..n])
      {
        assert ids[..n + 1][..n] == ids[..n];
        var id := ids[n];
        harts := harts[id := if id == me then Signalled(harts[id], signal) else Posted(harts[id], signal)];
      }
      assert ids[..|ids|] == ids;
      return SUCCESS;
    }

    /** Run one hart for up to `max` steps, stopping after a step that halts, stops or touches a
        device, or when it waits. `base` steps of this quantum are already behind it. */
    method RunCore(i: nat, max: nat, ghost base: nat) returns (n: nat, fault: bool, stopped: bool)
      requires Valid() && i < |harts| && LifeIn(harts[i]) == Started
      requires harts[i].roundStart <= harts[i].instret && clock.live == harts[i].instret - harts[i].roundStart <= base
      requires Ascending(times[i]) && UpTo(times[i], Now(clock.View(), clock.live))
      modifies `harts, `log, `asked, `times, `touched, clock`live
      ensures Valid() && old(log) <= log && |harts| == |old(harts)| && StartsKept(old(harts), harts, i)
      ensures n <= max && (max > 0 && !old(harts[i].waiting) && !fault ==> n >= 1)
      ensures (n == 0 && !fault ==> !touched) && (fault ==> Died() && n < max)
      ensures Counted(old(log), log, i, if fault then n + 1 else n)
      ensures times == old(times)[i := times[i]] && Ascending(times[i])
      ensures UpTo(times[i], Now(clock.View(), clock.live)) && clock.live <= base + n
      ensures !stopped && !fault ==>
        LifeIn(harts[i]) == Started && 0 <= harts[i].instret - harts[i].roundStart == clock.live
    {
      hide Agree, Entering, Ascending, UpTo, Now, Counted, Ticked, StartsKept, Acted, Told, Died;
      n, fault, stopped := 0, false, false;
      touched := false;
      StartsSame(harts, i);
      NoneCounted(log, i);
      while n < max
        invariant n <= max && Valid() && old(log) <= log && |harts| == |old(harts)| && LifeIn(harts[i]) == Started
        invariant StartsKept(old(harts), harts, i)
        invariant !touched && !fault && !stopped && (n == 0 ==> harts[i].waiting == old(harts[i].waiting))
        invariant Counted(old(log), log, i, n)
        invariant times == old(times)[i := times[i]] && Ascending(times[i])
        invariant UpTo(times[i], Now(clock.View(), clock.live))
        invariant harts[i].roundStart <= harts[i].instret
        invariant clock.live == harts[i].instret - harts[i].roundStart <= base + n
      {
        if harts[i].waiting {
          var able := Wake(i, old(harts));
          if !able { return; }
        }
        ghost var log1 := log;
        var s := Step1(i, old(harts));
        CountedOn(old(log), log1, log, i, n, 1);
        if s.Fatal? {
          fault := true;
          return;
        }
        n := n + 1;
        GoLive(i);
        if s.halts || harts[i].parked {
          stopped := true;
          return;
        }
        if s.mmio {
          touched := true;
          return;
        }
      }
    }

    /** Is the wait of a started hart over? */
    method Wake(i: nat, ghost first: seq<Hart>) returns (able: bool)
      requires Valid() && i < |harts| == |first| && LifeIn(harts[i]) == Started && StartsKept(first, harts, i)
      modifies `harts, `log, `asked
      ensures Valid() && log == old(log) && |harts| == |old(harts)| && StartsKept(first, harts, i)
      ensures LifeIn(harts[i]) == Started && (able ==> !harts[i].waiting)
      ensures harts[i].instret == old(harts[i].instret) && harts[i].roundStart == old(harts[i].roundStart)
    {
      hide Agree, Entering;
      ghost var h0 := harts;
      able := Runnable(i);
      StartsWake(first, h0, harts, i);
      assert log + [] == log;
    }

    /** A step, in the terms the scheduler needs. */
    method Step1(i: nat, ghost first: seq<Hart>) returns (s: Step)
      requires Valid() && i < |harts| && LifeIn(harts[i]) == Started && !harts[i].waiting
      requires Ascending(times[i]) && UpTo(times[i], Now(clock.View(), clock.live))
      requires |first| == |harts| && StartsKept(first, harts, i)
      modifies `harts, `log, `asked, `times
      ensures Valid() && old(log) <= log && |harts| == |old(harts)| && StartsKept(first, harts, i)
      ensures Advanced(old(harts)[i], harts[i]) && (s.Fatal? ==> Died())
      ensures Counted(old(log), log, i, 1)
      ensures times == old(times)[i := times[i]] && Ascending(times[i]) && UpTo(times[i], Now(clock.View(), clock.live))
    {
      hide Agree, Entering, Ascending, UpTo, Now, Counted, StartsKept, Acted, Told, Advanced;
      AllStartsRun(boot, log, harts);
      ghost var harts0, log0 := harts, log;
      s := StepCore(i);
      ActedKeeps(harts0, i, s);
      StartsOn(first, harts0, harts, i);
      ToldSteps(log0, harts0, i, s);
    }

    /** Publish how far into the round the hart is. */
    method GoLive(i: nat)
      requires i < |harts| == |times| && harts[i].roundStart <= harts[i].instret
      requires clock.live <= harts[i].instret - harts[i].roundStart
      requires UpTo(times[i], Now(clock.View(), clock.live))
      modifies clock`live
      ensures clock.live == harts[i].instret - harts[i].roundStart && UpTo(times[i], Now(clock.View(), clock.live))
    {
      hide UpTo, Now;
      LaterReads(times[i], clock.View(), clock.live, harts[i].instret - harts[i].roundStart);
      clock.live := harts[i].instret - harts[i].roundStart;
    }

    /** One hart's turn: at most a quantum of steps, within the budget of the whole run, and at least
        one exactly unless the quantum is zero. Polling devices in between changes nothing here. */
    method RunQuantum(i: nat, maxSteps: nat) returns (used: nat, fault: bool)
      requires Valid() && i < |harts| && LifeIn(harts[i]) == Started && !harts[i].waiting && retired < maxSteps
      requires Ascending(times[i]) && UpTo(times[i], clock.mtime)
      modifies `harts, `log, `asked, `times, `touched, `retired, clock`live
      ensures Valid() && old(log) <= log && |harts| == |old(harts)| && StartsKept(old(harts), harts, i)
      ensures used <= quantum && retired == old(retired) + used <= maxSteps && (fault ==> Died() && used < quantum)
      ensures !fault ==> (used >= 1 <==> quantum >= 1)
      ensures Counted(old(log), log, i, if fault then used + 1 else used)
      ensures times == old(times)[i := times[i]] && Ascending(times[i]) && UpTo(times[i], Now(clock.View(), used))
    {
      hide Agree, Entering, Ascending, UpTo, Now, Counted, StartsKept, Died;
      BeginTurn(i);
      NoneCounted(log, i);
      var budget: nat := Min(quantum, maxSteps - retired);
      used, fault := 0, false;
      while budget > 0
        invariant used + budget == Min(quantum, maxSteps - old(retired)) && retired == old(retired) + used
        invariant Valid() && old(log) <= log && |harts| == |old(harts)| && LifeIn(harts[i]) == Started
        invariant StartsKept(old(harts), harts, i) && (used == 0 ==> !harts[i].waiting)
        invariant Counted(old(log), log, i, used)
        invariant times == old(times)[i := times[i]] && Ascending(times[i])
        invariant UpTo(times[i], Now(clock.View(), clock.live))
        invariant harts[i].roundStart <= harts[i].instret
        invariant clock.live == harts[i].instret - harts[i].roundStart <= used
        decreases budget
      {
        ghost var h0, log1 := harts, log;
        var done, f, stopped := RunCore(i, budget, used);
        CountedOn(old(log), log1, log, i, used, if f then done + 1 else done);
        StartsOn(old(harts), h0, harts, i);
        retired := retired + done;
        used := used + done;
        budget := budget - Min(budget, done);
        if f || stopped || !touched {
          LaterReads(times[i], clock.View(), clock.live, used);
          return used, f;
        }
      }
      LaterReads(times[i], clock.View(), clock.live, used);
    }

    /** Note where the turn begins. */
    method BeginTurn(i: nat)
      requires Valid() && i < |harts| && LifeIn(harts[i]) == Started && UpTo(times[i], clock.mtime)
      modifies `harts, clock`live
      ensures Valid() && harts == old(harts)[i := old(harts)[i].(roundStart := old(harts)[i].instret)]
      ensures clock.live == 0
      ensures UpTo(times[i], Now(clock.View(), 0)) && StartsKept(old(harts), harts, i)
    {
      hide Agree, Entering, UpTo, Now;
      AllStartsRun(boot, log, harts);
      AgreeStill(boot, log, harts, harts[i := harts[i].(roundStart := harts[i].instret)]);
      EnteringStill(log, harts, harts[i := harts[i].(roundStart := harts[i].instret)]);
      harts := harts[i := harts[i].(roundStart := harts[i].instret)];
      clock.live := 0;
      FirstRead(times[i], clock.View());
    }

    // --- rounds -----------------------------------------------------------------------------------

    /** Every hart in turn. `able[h]` is whether hart h could run when its turn came; `ran[h]` how
        many steps it then executed. The round is complete unless a fault or the budget ended it. Every
        start that was waiting for a hart whose turn came has begun. */
    method Round(maxSteps: nat) returns (longest: nat, fault: bool, able: seq<bool>, ran: seq<nat>)
      requires Valid() && Shown(clock.mtime) && retired < maxSteps
      modifies `harts, `log, `asked, `times, `touched, `retired, clock`live
      ensures Valid() && old(log) <= log && |harts| == |old(harts)| && old(retired) <= retired <= maxSteps
      ensures |able| == |ran| <= |harts| && (!fault && retired < maxSteps ==> |ran| == |harts|)
      ensures forall h :: 0 <= h < |ran| ==> ran[h] <= quantum && ran[h] <= longest && (!able[h] ==> ran[h] == 0)
      ensures !fault ==> forall h :: 0 <= h < |ran| && able[h] ==> (ran[h] >= 1 <==> quantum >= 1)
      ensures (!fault ==> Tally(old(log), log, ran)) && AtMost(old(log), log, quantum)
      ensures !fault ==> ((true in able && quantum >= 1) <==> retired > old(retired))
      ensures !fault && true !in able ==> longest == 0
      ensures fault ==> ran != [] && Died() && quantum >= 1
      ensures TurnOk(times, clock.View(), |ran|, longest) && longest == Most(ran)
      ensures Served(log, |old(log)|, old(harts), |ran|)
    {
      hide Agree, Entering, Ascending, UpTo, Now, Counted, Tally, AtMost, TurnOk, Most, Begun, Served, StartKept;
      hide LifeIn, Died, Emptied;
      longest, fault, able, ran := 0, false, [], [];
      FirstTurn(times, clock.View());
      assert Most([]) == 0 by { NoneMost(); }
      StartsWaiting(harts);
      NoTally(log, quantum);
      NoneServed(log, |log|, harts);
      for i := 0 to |harts|
        invariant Valid() && old(log) <= log && |harts| == |old(harts)| && |able| == |ran| == i
        invariant old(retired) <= retired < maxSteps && !fault && TurnOk(times, clock.View(), i, longest)
        invariant longest == Most(ran)
        invariant forall h :: 0 <= h < i ==> ran[h] <= quantum && ran[h] <= longest && (!able[h] ==> ran[h] == 0)
        invariant forall h :: 0 <= h < i && able[h] ==> (ran[h] >= 1 <==> quantum >= 1)
        invariant Tally(old(log), log, ran) && AtMost(old(log), log, quantum)
        invariant ((true in able && quantum >= 1) <==> retired > old(retired)) && (true !in able ==> longest == 0)
        invariant Served(log, |old(log)|, old(harts), i)
        invariant forall h {:trigger harts[h]} :: i <= h < |harts| ==> StartKept(old(harts)[h], harts[h])
      {
        TurnOf(times, clock.View(), i, longest);
        ghost var times1, log1 := times, log;
        var r, used, f := TakeTurn(i, maxSteps, old(harts), |old(log)|);
        fault := f;
        ServedOn(log1, log, |old(log)|, old(harts), i);
        AtMostOn(old(log), log1, log, ran, if f then used + 1 else used, quantum);
        if !fault { TallyOn(old(log), log1, log, ran, used); }
        TurnDone(times1, times, clock.View(), i, longest, used);
        MostGrows(ran, used);
        able, ran, longest := able + [r], ran + [used], Max(longest, used);
        assert r ==> able[i];
        if fault || retired >= maxSteps { break; }
      }
    }

    /** One hart's turn in a round that began with the harts as in `first`: its mailbox, then its
        quantum if it can run. */
    method TakeTurn(i: nat, maxSteps: nat, ghost first: seq<Hart>, ghost from: nat)
      returns (r: bool, used: nat, fault: bool)
      requires Valid() && i < |harts| == |first| && retired < maxSteps && from <= |log|
      requires Ascending(times[i]) && UpTo(times[i], clock.mtime)
      requires forall h {:trigger harts[h]} :: i <= h < |harts| ==> StartKept(first[h], harts[h])
      modifies `harts, `log, `asked, `times, `touched, `retired, clock`live
      ensures Valid() && old(log) <= log && |harts| == |old(harts)|
      ensures used <= quantum && retired == old(retired) + used <= maxSteps && (!r ==> used == 0 && !fault)
      ensures (fault ==> Died() && quantum >= 1) && (r && !fault ==> (used >= 1 <==> quantum >= 1))
      ensures Counted(old(log), log, i, if fault then used + 1 else used)
      ensures fault ==> used < quantum
      ensures times == old(times)[i := times[i]] && Ascending(times[i]) && UpTo(times[i], Now(clock.View(), used))
      ensures forall h {:trigger harts[h]} :: i < h < |harts| ==> StartKept(first[h], harts[h])
      ensures first[i].start ==> Begun(log, from, i, first[i].addr, first[i].opaque_)
    {
      hide Agree, Entering, Ascending, UpTo, Now, Counted, Begun, Died;
      ghost var h0, log0 := harts, log;
      r := Runnable(i);
      TurnBegins(first, h0, i, log0, log, from);
      used, fault := 0, false;
      if r {
        ghost var log1 := log;
        used, fault := RunQuantum(i, maxSteps);
        CountedOn(log0, log1, log, i, 0, if fault then used + 1 else used);
      } else {
        FirstRead(times[i], clock.View());
      }
      if h0[i].start {
        BegunStays(log0 + [Begin(i, h0[i].addr, h0[i].opaque_)], log, from, i, h0[i].addr, h0[i].opaque_);
      }
    }

    /** A round and its tick: the harts run side by side, so the clock moves by the longest of their
        turns, not the sum; a round in which none could run leaves it. Every start granted before a
        complete round has been answered by a beginning at its end. */
    method RoundAndTick(maxSteps: nat) returns (fault: bool, ran: bool, ghost able: seq<bool>, ghost turns: seq<nat>)
      requires Valid() && Shown(clock.mtime) && retired < maxSteps
      modifies `harts, `log, `asked, `times, `touched, `retired, clock
      ensures Valid() && old(log) <= log && |harts| == |old(harts)| && old(retired) <= retired <= maxSteps
      ensures forall h :: 0 <= h < |times| ==> Ascending(times[h])
      ensures fault ==> turns != [] && clock.View() == old(clock.View()) && Died() && quantum >= 1
      ensures !fault ==> Shown(clock.mtime) && clock.mtime >= old(clock.mtime)
      ensures !fault ==> ((ran && quantum >= 1) <==> retired > old(retired))
      ensures !fault ==> clock.View() == if ran then Ticked(old(clock.View()), Most(turns)) else old(clock.View())
      ensures |able| == |turns| <= |harts| && (ran <==> true in able)
      ensures !fault && retired < maxSteps ==> |turns| == |harts| && AllBegun(log, |old(log)|, |log|)
      ensures !fault ==> forall h :: 0 <= h < |turns| ==>
        turns[h] <= quantum && (turns[h] >= 1 <==> able[h] && quantum >= 1)
      ensures (!fault ==> Tally(old(log), log, turns)) && AtMost(old(log), log, quantum)
    {
      hide Ascending, UpTo, TurnOk, Tally, AtMost, Served, Ticked, Most, Legal, LifeOf, LifeIn, StartRuns;
      hide Begun, AllBegun, Died;
      ghost var t, h0, log0 := clock.View(), harts, log;
      var longest, f, a, r := Round(maxSteps);
      fault, ran, able, turns := f, true in a, a, r;
      RoundDone(times, t, |r|, longest);
      if fault { return; }
      if retired < maxSteps { RoundDelivers(boot, log0, h0, log); }
      if ran {
        clock.live := 0;
        NowMoves(t, 0, longest);
        clock.Tick(longest);
      } else {
        RoundIdle(times, t, |r|);
      }
    }

    // --- the idle path ------------------------------------------------------------------------------

    /** Jump the clock to the earliest deadline of an unparked hart inside the horizon. No such
        deadline is skipped; without one the clock stays. */
    method FastForwardIdle() returns (jumped: bool)
      modifies clock
      ensures clock.live == old(clock.live) && clock.ipt == old(clock.ipt)
      ensures jumped <==> exists d :: IsDeadline(harts, world, asked, old(clock.mtime), d)
      ensures jumped ==> IsLeastDeadline(harts, world, asked, old(clock.mtime), clock.mtime)
      ensures jumped ==> clock.mtime > old(clock.mtime)
      ensures !jumped ==> clock.View() == old(clock.View())
    {
      var now := clock.mtime;
      var best := None;
      for h := 0 to |harts|
        invariant clock.mtime == now && clock.View() == old(clock.View())
        invariant best == Best(harts, world, asked, now, h)
      {
        if !harts[h].parked {
          best := Consider(best, now, world.mtimecmp(asked, h));
          var s := world.stimecmp(asked, h);
          if s.Some? { best := Consider(best, now, s.value); }
        }
      }
      forall d ensures IsDeadline(harts, world, asked, now, d) ==> best.Some? && best.value <= d {
        if IsDeadline(harts, world, asked, now, d) { BestIsLeast(harts, world, asked, now, |harts|, d); }
      }
      if best.None? { return false; }
      BestIsDeadline(harts, world, asked, now, |harts|);
      clock.AdvanceTo(best.value);
      return true;
    }

    /** A round in which nothing could execute: let time pass while something outside may answer,
        otherwise skip to the next deadline. Returns how many rounds in a row had neither. */
    method Idle(consecutiveIdle: nat) returns (idle: nat)
      requires Shown(clock.mtime)
      modifies `asked, clock
      ensures Shown(clock.mtime) && clock.mtime >= old(clock.mtime)
      ensures asked == old(asked) + 3
      ensures var t, now := old(clock.View()), old(clock.mtime);
              if world.io(asked - 3) then idle == 0 && clock.View() == Ticked(t, 2000)
              else if world.input(asked - 2) then idle == 0 && clock.View() == Ticked(t, 10_000)
              else if exists d :: IsDeadline(harts, world, asked, now, d) then
                idle == consecutiveIdle && IsLeastDeadline(harts, world, asked, now, clock.mtime)
              else clock.View() == t && idle == if world.input(asked - 1) then consecutiveIdle else consecutiveIdle + 1
    {
      hide Ascending, UpTo, Ticked, IsDeadline;
      asked := asked + 3;
      ghost var t := clock.View();
      if world.io(asked - 3) {
        clock.Tick(2000);
        Forward(t, 2000);
        StillShown(times, t.mtime, clock.mtime);
        return 0;
      }
      if world.input(asked - 2) {
        clock.Tick(10_000);
        Forward(t, 10_000);
        StillShown(times, t.mtime, clock.mtime);
        return 0;
      }
      var jumped := FastForwardIdle();
      if !jumped && !world.input(asked - 1) { return consecutiveIdle + 1; }
      StillShown(times, t.mtime, clock.mtime);
      return consecutiveIdle;
    }

    /** Nothing outside and no deadline can wake the machine any more. */
    ghost predicate Asleep()
      reads this, clock
    {
      && asked >= 3 && !world.io(asked - 3) && !world.input(asked - 2) && !world.input(asked - 1)
      && forall d :: !IsDeadline(harts, world, asked, clock.mtime, d)
    }

    // --- the run --------------------------------------------------------------------------------------

    /** Run until `maxSteps` have retired, a stop condition, a fatal trap, or a stall. It always
        ends; the budget is never overrun; harts begin and stop as the calls say; and no hart sees
        time go backwards. `marks` are the lengths of the history at the start and after each complete
        round: no hart executes more than a quantum between two of them, or after the last, and every
        start granted before one mark has been answered by a beginning at the next. */
    method Run(maxSteps: nat) returns (r: Outcome, ghost marks: seq<nat>, ghost idle: nat)
      requires Valid() && Shown(clock.mtime) && quantum >= 1
      modifies this, clock
      ensures Valid() && old(log) <= log && |harts| == |old(harts)|
      ensures old(retired) <= retired <= Max(old(retired), maxSteps)
      ensures forall h :: 0 <= h < |times| ==> Ascending(times[h])
      ensures !r.Fault? ==> Shown(clock.mtime)
      ensures clock.mtime >= old(clock.mtime)
      ensures marks != [] && marks[0] == |old(log)| && Paced(log, marks, quantum)
      ensures EntersRight(log)
      ensures match r
              case Fault => Died()
              case Stalled => Asleep()
              case Finished => retired >= maxSteps || (asked > 0 && world.stop(asked - 1)) || idle > maxSteps
    {
      hide Agree, EntersRight, Poised, Ascending, UpTo, TurnOk, Tally, AtMost, Ticked, IsDeadline, Paced;
      hide AllBegun, Died, Most;
      var consecutiveIdle, idleRounds := 0, 0;
      marks, idle := [|log|], 0;
      PacedStart(log, quantum);
      while retired < maxSteps
        invariant Valid() && old(log) <= log && |harts| == |old(harts)| && Shown(clock.mtime)
        invariant old(retired) <= retired <= Max(old(retired), maxSteps) && idle == idleRounds <= maxSteps
        invariant clock.mtime >= old(clock.mtime)
        invariant marks != [] && marks[0] == |old(log)| && Paced(log, marks, quantum)
        invariant retired < maxSteps ==> marks[|marks| - 1] == |log|
        decreases maxSteps - retired, maxSteps + 1 - idleRounds
      {
        ghost var log0 := log;
        var fault, ran, _, _ := RoundAndTick(maxSteps);
        if fault {
          PacedTail(log0, log, marks, quantum);
          return Fault, marks, idle;
        }
        if retired < maxSteps {
          PacedRound(log0, log, marks, quantum);
          marks := marks + [|log|];
        } else {
          PacedTail(log0, log, marks, quantum);
        }
        if ran {
          consecutiveIdle := 0;
        } else {
          idleRounds := idleRounds + 1;
          idle := idleRounds;
          if idleRounds > maxSteps { break; }
          consecutiveIdle := Idle(consecutiveIdle);
          if consecutiveIdle > 4 { return Stalled, marks, idle; }
        }
        asked := asked + 1;
        if world.stop(asked - 1) { return Finished, marks, idle; }
      }
      return Finished, marks, idle;
    }
  }

  // --- pace and delivery --------------------------------------------------------------------------

  /** Between consecutive marks every hart executes at most a quantum, and starts granted before the
      first have begun by the second; after the last mark there is at most one more turn. */
  ghost predicate Paced(log: seq<Entry>, marks: seq<nat>, quantum: nat) {
    && marks != []
    && (forall k {:trigger marks[k]} :: 0 <= k < |marks| ==> marks[k] <= |log|)
    && (forall k {:trigger marks[k]} :: 1 <= k < |marks| ==> PacedBetween(log, marks[k - 1], marks[k], quantum))
    && AtMost(log[..marks[|marks| - 1]], log, quantum)
  }

  ghost predicate PacedBetween(log: seq<Entry>, a: nat, b: nat, quantum: nat) {
    && a <= b <= |log| && AllBegun(log, a, b)
    && AtMost(log[..a], log[..b], quantum)
  }

  lemma PacedStart(log: seq<Entry>, quantum: nat)
    ensures Paced(log, [|log|], quantum)
  {
    assert log[..|log|] == log;
  }

  lemma BetweenStays(log: seq<Entry>, log': seq<Entry>, a: nat, b: nat, quantum: nat)
    requires PacedBetween(log, a, b, quantum) && log <= log'
    ensures PacedBetween(log', a, b, quantum)
  {
    hide Steps, AllBegun;
    AllBegunStays(log, log', a, b);
    assert log'[..a] == log[..a] && log'[..b] == log[..b];
  }

  /** A round that was not completed is the turn after the last mark. */
  lemma PacedTail(log: seq<Entry>, log': seq<Entry>, marks: seq<nat>, quantum: nat)
    requires Paced(log, marks, quantum) && log <= log' && marks[|marks| - 1] == |log|
    requires AtMost(log, log', quantum)
    ensures Paced(log', marks, quantum)
  {
    hide Steps, PacedBetween;
    forall k {:trigger marks[k]} | 1 <= k < |marks| ensures PacedBetween(log', marks[k - 1], marks[k], quantum) {
      BetweenStays(log, log', marks[k - 1], marks[k], quantum);
    }
    assert log'[..|log|] == log;
  }

  lemma PacedRound(log: seq<Entry>, log': seq<Entry>, marks: seq<nat>, quantum: nat)
    requires Paced(log, marks, quantum) && log <= log' && marks[|marks| - 1] == |log|
    requires AtMost(log, log', quantum)
    requires AllBegun(log', |log|, |log'|)
    ensures Paced(log', marks + [|log'|], quantum)
  {
    hide Steps, PacedBetween, AllBegun;
    PacedTail(log, log', marks, quantum);
    RoundBetween(log, log', quantum);
    OneMoreMark(log', marks, quantum);
  }

  lemma OneMoreMark(log: seq<Entry>, marks: seq<nat>, quantum: nat)
    requires Paced(log, marks, quantum) && PacedBetween(log, marks[|marks| - 1], |log|, quantum)
    ensures Paced(log, marks + [|log|], quantum)
  {
    hide Steps, PacedBetween, AllBegun;
    var m := marks + [|log|];
    assert log[..|log|] == log;
    forall k {:trigger m[k]} | 1 <= k < |m| ensures PacedBetween(log, m[k - 1], m[k], quantum) {
      if k < |marks| { assert m[k - 1] == marks[k - 1] && m[k] == marks[k]; }
    }
  }

  lemma RoundBetween(log: seq<Entry>, log': seq<Entry>, quantum: nat)
    requires log <= log' && AllBegun(log', |log|, |log'|)
    requires AtMost(log, log', quantum)
    ensures PacedBetween(log', |log|, |log'|, quantum)
  {
    hide Steps, AllBegun;
    assert log'[..|log|] == log && log'[..|log'|] == log';
  }

  lemma StartsSame(harts: seq<Hart>, i: nat)
    ensures StartsKept(harts, harts, i)
  {
  }

  lemma StartsOn(a: seq<Hart>, b: seq<Hart>, c: seq<Hart>, i: nat)
    requires |a| == |b| == |c| && StartsKept(a, b, i) && StartsKept(b, c, i)
    ensures StartsKept(a, c, i)
  {
  }

  /** A hart that looks at its own mailbox touches no other's. */
  lemma StartsWake(a: seq<Hart>, b: seq<Hart>, c: seq<Hart>, i: nat)
    requires |a| == |b| == |c| && StartsKept(a, b, i) && i < |b| && c == b[i := c[i]]
    ensures StartsKept(a, c, i)
  {
  }

  lemma StartsWaiting(harts: seq<Hart>)
    ensures forall h {:trigger harts[h]} :: 0 <= h < |harts| ==> StartKept(harts[h], harts[h])
  {
  }

  /** The start a hart's turn begins with is the one that was waiting when the round began. */
  lemma TurnBegins(first: seq<Hart>, harts: seq<Hart>, i: nat, log: seq<Entry>, log': seq<Entry>, from: nat)
    requires i < |first| == |harts| && StartKept(first[i], harts[i]) && from <= |log|
    requires log' == log + if harts[i].start then [Begin(i, harts[i].addr, harts[i].opaque_)] else []
    ensures first[i].start ==> harts[i].start && Begun(log', from, i, first[i].addr, first[i].opaque_)
    ensures harts[i].start ==> Begun(log', from, i, harts[i].addr, harts[i].opaque_)
    ensures Counted(log, log', i, 0)
  {
    if harts[i].start {
      StepsOf(log, Begin(i, harts[i].addr, harts[i].opaque_));
      assert log'[|log|] == Begin(i, harts[i].addr, harts[i].opaque_);
    } else {
      assert log' == log;
    }
  }

  // --- deadlines ------------------------------------------------------------------------------------

  /** A deadline the idle path considers: in the future, and near enough to be armed. */
  predicate Near(now: nat, d: nat) { now < d && d - now <= HORIZON }

  function Consider(best: Option<nat>, now: nat, d: nat): Option<nat> {
    if Near(now, d) && (best.None? || d < best.value) then Some(d) else best
  }

  /** The least deadline of the first n harts. */
  function Best(harts: seq<Hart>, world: World, at: nat, now: nat, n: nat): Option<nat>
    requires n <= |harts|
  {
    if n == 0 then None
    else
      var best := Best(harts, world, at, now, n - 1);
      if harts[n - 1].parked then best
      else
        var b := Consider(best, now, world.mtimecmp(at, n - 1));
        match world.stimecmp(at, n - 1)
        case None => b
        case Some(d) => Consider(b, now, d)
  }

  predicate DeadlineOf(harts: seq<Hart>, world: World, at: nat, h: nat, d: nat)
    requires h < |harts|
  {
    !harts[h].parked && (d == world.mtimecmp(at, h) || world.stimecmp(at, h) == Some(d))
  }

  /** d is a deadline of an unparked hart, inside the horizon. */
  ghost predicate IsDeadline(harts: seq<Hart>, world: World, at: nat, now: nat, d: nat) {
    now < d <= now + 0x10_0000_0000 && exists h :: 0 <= h < |harts| && DeadlineOf(harts, world, at, h, d)
  }

  ghost predicate IsLeastDeadline(harts: seq<Hart>, world: World, at: nat, now: nat, d: nat) {
    IsDeadline(harts, world, at, now, d) && forall e :: IsDeadline(harts, world, at, now, e) ==> d <= e
  }

  lemma {:induction false} BestIsLeast(harts: seq<Hart>, world: World, at: nat, now: nat, n: nat, d: nat)
    requires n <= |harts| && Near(now, d) && exists h :: 0 <= h < n && DeadlineOf(harts, world, at, h, d)
    ensures var b := Best(harts, world, at, now, n); b.Some? && b.value <= d
    decreases n
  {
    if !DeadlineOf(harts, world, at, n - 1, d) {
      BestIsLeast(harts, world, at, now, n - 1, d);
    }
  }

  lemma {:induction false} BestIsDeadline(harts: seq<Hart>, world: World, at: nat, now: nat, n: nat)
    requires n <= |harts| && Best(harts, world, at, now, n).Some?
    ensures IsDeadline(harts, world, at, now, Best(harts, world, at, now, n).value)
    decreases n
  {
    var b := Best(harts, world, at, now, n).value;
    if Best(harts, world, at, now, n - 1) == Some(b) {
      BestIsDeadline(harts, world, at, now, n - 1);
    } else {
      assert DeadlineOf(harts, world, at, n - 1, b);
    }
  }

  lemma Forward(t: Time, n: nat)
    ensures t.mtime <= Ticked(t, n).mtime
  {
    NowMoves(t, 0, n);
  }

  lemma StillShown(times: seq<seq<nat>>, t: nat, later: nat)
    requires t <= later && forall h :: 0 <= h < |times| ==> UpTo(times[h], t)
    ensures forall h :: 0 <= h < |times| ==> UpTo(times[h], later)
  {
  }

  /** A round in which no hart ran shows nothing new. */
  lemma RoundIdle(times: seq<seq<nat>>, t: Time, i: nat)
    requires TurnOk(times, t, i, 0)
    ensures forall h :: 0 <= h < |times| ==> Ascending(times[h]) && UpTo(times[h], t.mtime)
  {
    hide Ascending;
    assert Now(t, 0) == t.mtime;
  }

  /** Between turns of a round that began at t: harts before i may have been shown times up to
      `longest` steps into it, the others nothing after its beginning. */
  ghost predicate TurnOk(times: seq<seq<nat>>, t: Time, i: nat, longest: nat) {
    forall h :: 0 <= h < |times| ==> Ascending(times[h]) && UpTo(times[h], if h < i then Now(t, longest) else t.mtime)
  }

  lemma FirstTurn(times: seq<seq<nat>>, t: Time)
    requires forall h :: 0 <= h < |times| ==> Ascending(times[h]) && UpTo(times[h], t.mtime)
    ensures TurnOk(times, t, 0, 0)
  {
  }

  lemma TurnOf(times: seq<seq<nat>>, t: Time, i: nat, longest: nat)
    requires TurnOk(times, t, i, longest) && i < |times|
    ensures Ascending(times[i]) && UpTo(times[i], t.mtime)
  {
  }

  lemma TurnDone(times: seq<seq<nat>>, times': seq<seq<nat>>, t: Time, i: nat, longest: nat, used: nat)
    requires TurnOk(times, t, i, longest) && i < |times| == |times'| && times' == times[i := times'[i]]
    requires Ascending(times'[i]) && UpTo(times'[i], Now(t, used))
    ensures TurnOk(times', t, i + 1, Max(longest, used))
  {
    hide Ascending, UpTo, Now;
    var most := Max(longest, used);
    forall h | 0 <= h < |times'|
      ensures Ascending(times'[h]) && UpTo(times'[h], if h < i + 1 then Now(t, most) else t.mtime)
    {
      if h < i { LaterReads(times[h], t, longest, most); }
      if h == i { LaterReads(times'[h], t, used, most); }
    }
  }

  /** When the clock has ticked for the longest turn, no hart has been shown a later time. */
  lemma RoundDone(times: seq<seq<nat>>, t: Time, i: nat, longest: nat)
    requires TurnOk(times, t, i, longest)
    ensures forall h :: 0 <= h < |times| ==> Ascending(times[h]) && UpTo(times[h], Ticked(t, longest).mtime)
  {
    hide Ascending, Now, Ticked;
    NowMoves(t, 0, longest);
  }

  lemma NoneMost()
    ensures Most([]) == 0
  {
  }

  lemma FirstRead(s: seq<nat>, t: Time)
    requires UpTo(s, t.mtime)
    ensures UpTo(s, Now(t, 0))
  {
  }

  /** What was shown by now is shown by later. */
  lemma LaterReads(s: seq<nat>, t: Time, live: nat, later: nat)
    requires UpTo(s, Now(t, live)) && live <= later
    ensures UpTo(s, Now(t, later))
  {
    hide Now;
    NowMoves(t, live, later);
  }
}
