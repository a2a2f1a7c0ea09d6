/** The interrupt controller as it runs: state updated in place and a cached arbitration
    (`src/plic.rs`). Its contracts speak of the uncached state, so the cache is invisible. */
module Plic {
  import opened PlicSpec

  datatype Outcome = Value(value: nat) | Fault

  class Plic {
    var priority: seq<nat>
    var line: set<nat>
    var pending: set<nat>
    var claimed: set<nat>
    var contexts: seq<Context>
    /** The winner of each context, correct unless `dirty`. */
    var best: seq<nat>
    var dirty: bool

    ghost function Core(): State
      reads this
    {
      State(priority, line, pending, claimed, contexts)
    }

    ghost predicate Consistent()
      reads this
    {
      && Valid(Core())
      && |best| == |contexts|
      && (!dirty ==> forall c {:trigger best[c]} :: 0 <= c < |best| ==> Wins(Core(), c, best[c]))
    }

    constructor (harts: nat)
      ensures Consistent() && |contexts| == 2 * (if harts == 0 then 1 else harts)
      ensures line == {} && pending == {} && claimed == {}
      ensures forall i :: 0 <= i < |priority| ==> priority[i] == 0
      ensures forall c :: 0 <= c < |contexts| ==> contexts[c] == Context({}, 0)
    {
      var n := 2 * (if harts == 0 then 1 else harts);
      priority := seq(MAX_IRQS, _ => 0);
      line, pending, claimed := {}, {}, {};
      contexts := seq(n, _ => Context({}, 0));
      best := seq(n, _ => 0);
      dirty := true;
    }

    /** Changes are only noted as such when the bitmaps really move. */
    method SetPending(irq: nat, asserted: bool)
      requires Consistent()
      modifies this
      ensures Consistent() && Core() == SetLine(old(Core()), irq, asserted)
    {
      if !IsSource(irq) { return; }
      var beforeLine, beforePending := line, pending;
      if asserted {
        line, pending := line + {irq}, pending + {irq};
      } else {
        line, pending := line - {irq}, pending - {irq};
      }
      if line != beforeLine || pending != beforePending {
        dirty := true;
      }
    }

    /** Arbitration from scratch. */
    method Scan(ctx: nat) returns (winner: nat)
      requires |priority| == MAX_IRQS
      ensures Wins(Core(), ctx, winner)
    {
      if ctx >= |contexts| { return 0; }
      var candidates := pending * contexts[ctx].enabled - claimed;
      var bestPriority := 0;
      winner := 0;
      for irq := 1 to MAX_IRQS
        invariant if winner == 0
          then bestPriority == 0 && forall i :: 1 <= i < irq ==> !Eligible(Core(), ctx, i)
          else winner < irq && Eligible(Core(), ctx, winner) && bestPriority == priority[winner]
               && forall i :: 1 <= i < irq && Eligible(Core(), ctx, i) ==> Beats(Core(), winner, i)
      {
        if irq !in candidates { continue; }
        var p := priority[irq];
        if p == 0 || p <= contexts[ctx].threshold { continue; }
        if p > bestPriority {
          bestPriority, winner := p, irq;
        }
      }
    }

    /** The cached winner is the winner. */
    method BestIrq(ctx: nat) returns (irq: nat)
      requires Consistent()
      modifies `best, `dirty
      ensures Consistent() && Core() == old(Core()) && !dirty
      ensures Wins(Core(), ctx, irq)
    {
      hide Valid, Wins;
      CoreHasPriorities();
      if dirty {
        for c := 0 to |best|
          modifies `best
          invariant |best| == |contexts| && Core() == old(Core())
          invariant forall i {:trigger best[i]} :: 0 <= i < c ==> Wins(Core(), i, best[i])
        {
          var w := Scan(c);
          best := best[c := w];
        }
        dirty := false;
      }
      if ctx < |best| {
        irq := best[ctx];
      } else {
        irq := 0;
        NoContext(ctx);
      }
    }

    lemma CoreHasPriorities()
      requires Valid(Core())
      ensures |priority| == MAX_IRQS
    {
    }

    lemma NoContext(ctx: nat)
      requires |priority| == MAX_IRQS && ctx >= |contexts|
      ensures Wins(Core(), ctx, 0)
    {
    }

    /** A hart's machine and supervisor external interrupts are raised exactly when some source is
        eligible for its first and second context. */
    method Update(hart: nat) returns (meip: bool, seip: bool)
      requires Consistent()
      modifies `best, `dirty
      ensures Consistent() && Core() == old(Core())
      ensures meip <==> exists irq :: IsSource(irq) && 2 * hart < |contexts| && Eligible(Core(), 2 * hart, irq)
      ensures seip <==> exists irq :: IsSource(irq) && 2 * hart + 1 < |contexts| && Eligible(Core(), 2 * hart + 1, irq)
    {
      hide Valid;
      var m := BestIrq(2 * hart);
      var s := BestIrq(2 * hart + 1);
      meip, seip := m != 0, s != 0;
    }

    method Claim(ctx: nat) returns (irq: nat)
      requires Consistent()
      modifies this
      ensures Consistent() && Wins(old(Core()), ctx, irq) && Core() == Claimed(old(Core()), irq)
    {
      irq := BestIrq(ctx);
      if irq != 0 {
        claimed := claimed + {irq};
        pending := pending - {irq};
        dirty := true;
      }
    }

    method Complete(irq: nat)
      requires Consistent()
      modifies this
      ensures Consistent() && Core() == Completed(old(Core()), irq)
    {
      if !IsSource(irq) { return; }
      claimed := claimed - {irq};
      if irq in line {
        pending := pending + {irq};
      }
      dirty := true;
    }

    /** A guest load. Only the claim register changes anything. */
    method Load(offset: nat, size: nat) returns (r: Outcome)
      requires Consistent()
      modifies this
      ensures Consistent() && (r.Fault? <==> size != 4) && (r.Fault? ==> Core() == old(Core()))
      ensures r.Value? ==>
        match PlicSpec.Load(old(Core()), offset)
        case Plain(v) => r.value == v && Core() == old(Core())
        case ClaimRead(ctx) => Wins(old(Core()), ctx, r.value) && Core() == Claimed(old(Core()), r.value)
    {
      hide WordOf;
      if size != 4 { return Fault; }
      if offset < 4 * MAX_IRQS { return Value(priority[offset / 4]); }
      if PENDING_BASE <= offset < PENDING_BASE + 0x80 {
        var word := (offset - PENDING_BASE) / 4;
        return Value(if word >= 2 then 0 else WordOf(pending, word));
      }
      if ENABLE_BASE <= offset < CONTEXT_BASE {
        var ctx, word := (offset - ENABLE_BASE) / 0x80, (offset - ENABLE_BASE) % 0x80 / 4;
        return Value(if ctx >= |contexts| || word >= 2 then 0 else WordOf(contexts[ctx].enabled, word));
      }
      if offset >= CONTEXT_BASE {
        var ctx, within := (offset - CONTEXT_BASE) / 0x1000, (offset - CONTEXT_BASE) % 0x1000;
        if ctx >= |contexts| { return Value(0); }
        if within == 0 { return Value(contexts[ctx].threshold); }
        if within == 4 {
          var irq := Claim(ctx);
          return Value(irq);
        }
      }
      return Value(0);
    }

    /** A guest store of the low 32 bits of `value`. */
    method Store(offset: nat, size: nat, value: nat) returns (ok: bool)
      requires Consistent()
      modifies this
      ensures Consistent() && (ok <==> size == 4)
      ensures Core() == if ok then PlicSpec.Store(old(Core()), offset, value % 0x1_0000_0000) else old(Core())
    {
      hide WithWord;
      if size != 4 { return false; }
      var v := value % 0x1_0000_0000;
      if offset < 4 * MAX_IRQS {
        priority := priority[offset / 4 := v];
        dirty := true;
      } else if ENABLE_BASE <= offset < CONTEXT_BASE {
        var ctx, word := (offset - ENABLE_BASE) / 0x80, (offset - ENABLE_BASE) % 0x80 / 4;
        if ctx < |contexts| && word < 2 {
          contexts := contexts[ctx := contexts[ctx].(enabled := WithWord(contexts[ctx].enabled, word, v))];
          dirty := true;
        }
      } else if offset >= CONTEXT_BASE {
        var ctx, within := (offset - CONTEXT_BASE) / 0x1000, (offset - CONTEXT_BASE) % 0x1000;
        if ctx < |contexts| {
          if within == 0 {
            contexts := contexts[ctx := contexts[ctx].(threshold := v)];
            dirty := true;
          }
          if within == 4 {
            Complete(v);
          }
        }
      }
      return true;
    }
  }
}
