/** The interrupt controller without its arbitration cache: gateways, claim and complete
    (`src/plic.rs`). The 64-bit bitmaps of the source are sets of interrupt numbers. */
module PlicSpec {
  import opened Bits

  const MAX_IRQS: nat := 64

  datatype Context = Context(enabled: set<nat>, threshold: nat)

  /** `line` is what devices assert now, `pending` what the gateway has forwarded and not had
      claimed, `claimed` what is in service. */
  datatype State = State(priority: seq<nat>, line: set<nat>, pending: set<nat>,
                         claimed: set<nat>, contexts: seq<Context>)

  predicate IsSource(irq: nat) { 0 < irq < MAX_IRQS }

  /** Every asserted source is pending or in service; nothing is pending without its line. */
  ghost predicate Valid(s: State) {
    && |s.priority| == MAX_IRQS
    && (forall i :: i in s.line || i in s.pending || i in s.claimed ==> IsSource(i))
    && s.line <= s.pending + s.claimed
    && s.pending <= s.line
  }

  // --- arbitration ---------------------------------------------------------------------------

  /** May this source interrupt this context? */
  predicate Eligible(s: State, ctx: nat, irq: nat)
    requires |s.priority| == MAX_IRQS && ctx < |s.contexts|
  {
    && IsSource(irq) && irq in s.pending && irq in s.contexts[ctx].enabled && irq !in s.claimed
    && s.priority[irq] > 0 && s.priority[irq] > s.contexts[ctx].threshold
  }

  predicate Beats(s: State, a: nat, b: nat)
    requires |s.priority| == MAX_IRQS && a < MAX_IRQS && b < MAX_IRQS
  {
    s.priority[a] > s.priority[b] || (s.priority[a] == s.priority[b] && a <= b)
  }

  /** The eligible source of highest priority, the lowest number on ties; 0 if there is none. */
  ghost predicate Wins(s: State, ctx: nat, irq: nat)
    requires |s.priority| == MAX_IRQS
  {
    if ctx >= |s.contexts| then irq == 0
    else if irq == 0 then forall i :: IsSource(i) ==> !Eligible(s, ctx, i)
    else Eligible(s, ctx, irq) && forall i :: IsSource(i) && Eligible(s, ctx, i) ==> Beats(s, irq, i)
  }

  lemma WinnerUnique(s: State, ctx: nat, a: nat, b: nat)
    requires |s.priority| == MAX_IRQS && Wins(s, ctx, a) && Wins(s, ctx, b)
    ensures a == b
  {
    if ctx < |s.contexts| && a != 0 && b != 0 { assert Beats(s, a, b) && Beats(s, b, a); }
  }

  // --- operations ------------------------------------------------------------------------------

  /** A device's line rises or falls. */
  function SetLine(s: State, irq: nat, asserted: bool): State {
    if !IsSource(irq) then s
    else if asserted then s.(line := s.line + {irq}, pending := s.pending + {irq})
    else s.(line := s.line - {irq}, pending := s.pending - {irq})
  }

  /** The winner goes into service and stops being pending. */
  function Claimed(s: State, irq: nat): State {
    if irq == 0 then s else s.(claimed := s.claimed + {irq}, pending := s.pending - {irq})
  }

  /** A source whose line is still up becomes pending again. */
  function Completed(s: State, irq: nat): State {
    if !IsSource(irq) then s
    else s.(claimed := s.claimed - {irq}, pending := if irq in s.line then s.pending + {irq} else s.pending)
  }

  // --- registers ---------------------------------------------------------------------------------

  const PENDING_BASE: nat := 0x1000
  const ENABLE_BASE: nat := 0x2000
  const CONTEXT_BASE: nat := 0x20_0000

  /** Bits w*32 up to w*32+n of a bitmap as a register value. */
  function WordBits(s: set<nat>, w: nat, n: nat): nat
    decreases n
  {
    if n == 0 then 0 else (if 32 * w + 32 - n in s then 1 else 0) + 2 * WordBits(s, w, n - 1)
  }

  function WordOf(s: set<nat>, w: nat): nat { WordBits(s, w, 32) }

  /** The lowest n bits of v, as numbers counted from `base`. */
  function BitsOf(v: nat, base: nat, n: nat): set<nat>
    decreases n
  {
    if n == 0 then {} else (if v % 2 == 1 then {base} else {}) + BitsOf(v / 2, base + 1, n - 1)
  }

  /** The bitmap with word w replaced by a 32-bit value. */
  function WithWord(s: set<nat>, w: nat, v: nat): set<nat> {
    (set i | i in s && !(32 * w <= i < 32 * w + 32)) + BitsOf(v, 32 * w, 32)
  }

  lemma {:induction false} WordBitsHas(s: set<nat>, w: nat, n: nat, k: nat)
    requires k < n <= 32
    ensures Bit(WordBits(s, w, n), k) <==> 32 * w + 32 - n + k in s
    decreases n
  {
    if k > 0 { WordBitsHas(s, w, n - 1, k - 1); }
  }

  lemma {:induction false} BitsOfHas(v: nat, base: nat, n: nat, i: nat)
    ensures i in BitsOf(v, base, n) <==> base <= i < base + n && Bit(v, i - base)
    decreases n
  {
    if n > 0 { BitsOfHas(v / 2, base + 1, n - 1, i); }
  }

  /** Reading an enable word gives back the bits written to it, and other words are untouched. */
  lemma WordReadsBack(s: set<nat>, w: nat, v: nat, u: nat, k: nat)
    requires k < 32
    ensures Bit(WordOf(WithWord(s, w, v), u), k) <==> if u == w then Bit(v, k) else 32 * u + k in s
  {
    hide Bit, BitsOf, WordBits;
    WordBitsHas(WithWord(s, w, v), u, 32, k);
    BitsOfHas(v, 32 * w, 32, 32 * u + k);
  }

  datatype Access = Plain(value: nat) | ClaimRead(ctx: nat)

  /** What a 4-byte load at an offset returns; only the claim register has an effect. */
  function Load(s: State, offset: nat): Access
    requires |s.priority| == MAX_IRQS
  {
    if offset < 4 * MAX_IRQS then Plain(s.priority[offset / 4])
    else if PENDING_BASE <= offset < PENDING_BASE + 0x80 then
      var w := (offset - PENDING_BASE) / 4;
      Plain(if w >= 2 then 0 else WordOf(s.pending, w))
    else if ENABLE_BASE <= offset < CONTEXT_BASE then
      var ctx, w := (offset - ENABLE_BASE) / 0x80, (offset - ENABLE_BASE) % 0x80 / 4;
      Plain(if ctx >= |s.contexts| || w >= 2 then 0 else WordOf(s.contexts[ctx].enabled, w))
    else if offset >= CONTEXT_BASE then
      var ctx, within := (offset - CONTEXT_BASE) / 0x1000, (offset - CONTEXT_BASE) % 0x1000;
      if ctx >= |s.contexts| then Plain(0)
      else if within == 0 then Plain(s.contexts[ctx].threshold)
      else if within == 4 then ClaimRead(ctx)
      else Plain(0)
    else Plain(0)
  }

  /** A 4-byte store. Writing the claim register completes. */
  function Store(s: State, offset: nat, v: nat): State
    requires |s.priority| == MAX_IRQS
  {
    if offset < 4 * MAX_IRQS then s.(priority := s.priority[offset / 4 := v])
    else if ENABLE_BASE <= offset < CONTEXT_BASE then
      var ctx, w := (offset - ENABLE_BASE) / 0x80, (offset - ENABLE_BASE) % 0x80 / 4;
      if ctx < |s.contexts| && w < 2 then
        s.(contexts := s.contexts[ctx := s.contexts[ctx].(enabled := WithWord(s.contexts[ctx].enabled, w, v))])
      else s
    else if offset >= CONTEXT_BASE then
      var ctx, within := (offset - CONTEXT_BASE) / 0x1000, (offset - CONTEXT_BASE) % 0x1000;
      if ctx >= |s.contexts| then s
      else if within == 0 then s.(contexts := s.contexts[ctx := s.contexts[ctx].(threshold := v)])
      else if within == 4 then Completed(s, v)
      else s
    else s
  }

  // --- runs -----------------------------------------------------------------------------------------

  /** A line change, a register write, or a claim by a context that returned `irq`. */
  datatype Event = Line(irq: nat, asserted: bool) | Write(offset: nat, v: nat) | Claim(ctx: nat, irq: nat)

  ghost predicate CanHappen(s: State, ev: Event)
    requires |s.priority| == MAX_IRQS
  {
    ev.Claim? ==> Wins(s, ev.ctx, ev.irq)
  }

  function Next(s: State, ev: Event): (n: State)
    requires |s.priority| == MAX_IRQS
    ensures |n.priority| == MAX_IRQS
  {
    match ev
    case Line(irq, asserted) => SetLine(s, irq, asserted)
    case Write(offset, v) => Store(s, offset, v)
    case Claim(_, irq) => Claimed(s, irq)
  }

  lemma NextValid(s: State, ev: Event)
    requires Valid(s) && CanHappen(s, ev)
    ensures Valid(Next(s, ev))
  {
    hide WithWord, Bit;
  }

  ghost predicate Runs(s: State, evs: seq<Event>)
    decreases |evs|
  {
    |s.priority| == MAX_IRQS && (evs != [] ==> CanHappen(s, evs[0]) && Runs(Next(s, evs[0]), evs[1..]))
  }

  /** Every reachable state is valid. */
  lemma {:induction false} AlwaysValid(s: State, evs: seq<Event>)
    requires Valid(s) && Runs(s, evs)
    ensures forall k :: 0 <= k <= |evs| ==> Runs(s, evs[..k]) && Valid(After(s, evs[..k]))
    decreases |evs|
  {
    hide Valid, CanHappen, Next;
    ValidPriority(s);
    if evs != [] {
      NextValid(s, evs[0]);
      AlwaysValid(Next(s, evs[0]), evs[1..]);
    }
    forall k | 0 <= k <= |evs| ensures Runs(s, evs[..k]) && Valid(After(s, evs[..k])) {
      if k > 0 { assert evs[..k][1..] == evs[1..][..k - 1]; }
    }
  }

  lemma ValidPriority(s: State)
    requires Valid(s)
    ensures |s.priority| == MAX_IRQS
  {
  }

  ghost function After(s: State, evs: seq<Event>): State
    requires Runs(s, evs)
    decreases |evs|
  {
    if evs == [] then s else After(Next(s, evs[0]), evs[1..])
  }

  /** A register write that completes irq. */
  predicate Completes(contexts: nat, ev: Event, irq: nat) {
    && ev.Write? && ev.v == irq && ev.offset >= CONTEXT_BASE
    && (ev.offset - CONTEXT_BASE) / 0x1000 < contexts && (ev.offset - CONTEXT_BASE) % 0x1000 == 4
  }

  lemma InServiceUntilCompleted(s: State, ev: Event, irq: nat)
    requires Valid(s) && CanHappen(s, ev) && irq in s.claimed && !Completes(|s.contexts|, ev, irq)
    ensures irq in Next(s, ev).claimed && |Next(s, ev).contexts| == |s.contexts|
    ensures !(ev.Claim? && ev.irq == irq)
  {
    hide WithWord;
  }

  lemma {:induction false} StaysInService(s: State, evs: seq<Event>, irq: nat, k: nat)
    requires Valid(s) && Runs(s, evs) && irq in s.claimed && k < |evs|
    requires forall j :: 0 <= j < k ==> !Completes(|s.contexts|, evs[j], irq)
    ensures !(evs[k].Claim? && evs[k].irq == irq)
    decreases k
  {
    hide Valid, CanHappen, Next, Completes;
    ValidPriority(s);
    if k == 0 {
      ClaimNeedsIdle(s, evs[0], irq);
    } else {
      InServiceUntilCompleted(s, evs[0], irq);
      NextValid(s, evs[0]);
      forall j | 0 <= j < k - 1 ensures !Completes(|s.contexts|, evs[1..][j], irq) {
        assert evs[1..][j] == evs[j + 1];
      }
      StaysInService(Next(s, evs[0]), evs[1..], irq, k - 1);
    }
  }

  lemma ClaimNeedsIdle(s: State, ev: Event, irq: nat)
    requires Valid(s) && CanHappen(s, ev) && irq in s.claimed
    ensures !(ev.Claim? && ev.irq == irq)
  {
  }

  /** Two claims returning the same interrupt, by whatever contexts, have a completion of it
      between them. */
  lemma {:induction false} ClaimsSeparated(s: State, evs: seq<Event>, i: nat, k: nat, irq: nat)
    requires Valid(s) && Runs(s, evs) && i < k < |evs| && irq != 0
    requires evs[i].Claim? && evs[i].irq == irq && evs[k].Claim? && evs[k].irq == irq
    ensures exists j :: i < j < k && Completes(|s.contexts|, evs[j], irq)
    decreases i
  {
    hide Valid, CanHappen, Completes;
    ValidPriority(s);
    NextValid(s, evs[0]);
    ContextsStay(s, evs[0]);
    var n, rest := Next(s, evs[0]), evs[1..];
    if i == 0 {
      if forall j :: 0 < j < k ==> !Completes(|s.contexts|, evs[j], irq) {
        forall j | 0 <= j < k - 1 ensures !Completes(|n.contexts|, rest[j], irq) {
          assert rest[j] == evs[j + 1];
        }
        StaysInService(n, rest, irq, k - 1);
      }
    } else {
      hide Next;
      ClaimsSeparated(n, rest, i - 1, k - 1, irq);
      var j :| i - 1 < j < k - 1 && Completes(|n.contexts|, rest[j], irq);
      assert rest[j] == evs[j + 1];
    }
  }

  lemma ContextsStay(s: State, ev: Event)
    requires |s.priority| == MAX_IRQS
    ensures |Next(s, ev).contexts| == |s.contexts|
  {
  }

  /** An interrupt is never lost. A source whose line is up, which a context enables at a
      priority above its threshold, is in service or that context is told of some interrupt that
      beats it. */
  lemma NeverLost(s: State, ctx: nat, irq: nat, best: nat)
    requires Valid(s) && ctx < |s.contexts| && irq in s.line && irq in s.contexts[ctx].enabled
    requires s.priority[irq] > s.contexts[ctx].threshold && Wins(s, ctx, best)
    ensures irq in s.claimed || (best != 0 && Beats(s, best, irq))
  {
  }

  /** Completing a source whose line is still up offers it again; completing one whose line has
      dropped does not. */
  lemma ReofferedOnComplete(s: State, irq: nat)
    requires Valid(s) && IsSource(irq) && irq in s.claimed
    ensures irq !in Completed(s, irq).claimed && (irq in Completed(s, irq).pending <==> irq in s.line)
  {
  }
}
