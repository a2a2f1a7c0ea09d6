/** The interrupt controller's registers by address and its operations by effect, told without the
    functions that decode and perform them (the PLIC specification's memory map). */
module PlicMap {
  import opened Bits
  import opened Powers
  import opened PlicSpec

  /** Sources are numbered 1 to 63. A line that rises makes its source pending, one that falls takes it
      back; nothing else changes. */
  lemma LineMeans(s: State, irq: nat, asserted: bool)
    ensures var n := SetLine(s, irq, asserted);
            && n.priority == s.priority && n.claimed == s.claimed && n.contexts == s.contexts
            && (1 <= irq <= 63 ==> (irq in n.line <==> asserted) && (irq in n.pending <==> asserted))
            && (!(1 <= irq <= 63) ==> n == s)
            && forall i :: i != irq ==> (i in n.line <==> i in s.line) && (i in n.pending <==> i in s.pending)
  {
  }

  /** A claim puts the winner in service and ends its waiting, and changes nothing else. */
  lemma ClaimMeans(s: State, ctx: nat, irq: nat)
    requires |s.priority| == 64 && Wins(s, ctx, irq)
    ensures var n := Claimed(s, irq);
            && n.priority == s.priority && n.line == s.line && n.contexts == s.contexts
            && (irq == 0 ==> n == s)
            && (irq != 0 ==> irq in s.pending && irq !in n.pending && irq !in s.claimed && irq in n.claimed)
            && forall i :: i != irq ==> (i in n.claimed <==> i in s.claimed) && (i in n.pending <==> i in s.pending)
  {
  }

  /** A completion ends service; the source waits again if its line is still up. */
  lemma CompleteMeans(s: State, irq: nat)
    ensures var n := Completed(s, irq);
            && n.priority == s.priority && n.line == s.line && n.contexts == s.contexts
            && (1 <= irq <= 63 ==> irq !in n.claimed && (irq in n.pending <==> irq in s.line || irq in s.pending))
            && (!(1 <= irq <= 63) ==> n == s)
            && forall i :: i != irq ==> (i in n.claimed <==> i in s.claimed) && (i in n.pending <==> i in s.pending)
  {
  }

  /** Four bytes of priority for each source from 0. */
  lemma PriorityAt(s: State, irq: nat, v: nat)
    requires |s.priority| == 64 && irq < 64
    ensures Load(s, 4 * irq) == Plain(s.priority[irq])
    ensures Store(s, 4 * irq, v) == s.(priority := s.priority[irq := v])
  {
  }

  lemma {:induction false} WordBound(s: set<nat>, w: nat, n: nat)
    ensures WordBits(s, w, n) < Pow2(n)
    decreases n
  {
    if n > 0 { WordBound(s, w, n - 1); }
  }

  /** Words are 32 bits. */
  lemma WordFits(s: set<nat>, w: nat)
    ensures WordOf(s, w) < 0x1_0000_0000
  {
    hide Pow2, WordBits;
    Pow2Numbers();
    WordBound(s, w, 32);
  }

  /** Two words of pending bits from 0x1000, which cannot be written. */
  lemma PendingAt(s: State, w: nat, k: nat, v: nat)
    requires |s.priority| == 64 && w < 2 && k < 32
    ensures var r := Load(s, 0x1000 + 4 * w);
            r.Plain? && r.value < 0x1_0000_0000 && (Bit(r.value, k) <==> 32 * w + k in s.pending)
    ensures Store(s, 0x1000 + 4 * w, v) == s
  {
    hide Bit, WordBits;
    WordBitsHas(s.pending, w, 32, k);
    WordFits(s.pending, w);
  }

  /** Two words of enable bits for each context from 0x2000, 0x80 bytes apart. */
  lemma EnableAt(s: State, ctx: nat, w: nat, k: nat, v: nat)
    requires |s.priority| == 64 && ctx < |s.contexts| && ctx < 0x3fc0 && w < 2 && k < 32
    ensures var r := Load(s, 0x2000 + 0x80 * ctx + 4 * w);
            && r.Plain? && r.value < 0x1_0000_0000
            && (Bit(r.value, k) <==> 32 * w + k in s.contexts[ctx].enabled)
    ensures var old_, n := s.contexts[ctx], Store(s, 0x2000 + 0x80 * ctx + 4 * w, v);
            && |n.contexts| == |s.contexts| && n == s.(contexts := s.contexts[ctx := n.contexts[ctx]])
            && n.contexts[ctx].threshold == old_.threshold
            && (32 * w + k in n.contexts[ctx].enabled <==> Bit(v, k))
            && forall i :: !(32 * w <= i < 32 * w + 32) ==> (i in n.contexts[ctx].enabled <==> i in old_.enabled)
  {
    hide Bit, WordBits, BitsOf;
    var offset := 0x2000 + 0x80 * ctx + 4 * w;
    assert (offset - 0x2000) / 0x80 == ctx && (offset - 0x2000) % 0x80 / 4 == w;
    WordBitsHas(s.contexts[ctx].enabled, w, 32, k);
    WordFits(s.contexts[ctx].enabled, w);
    BitsOfHas(v, 32 * w, 32, 32 * w + k);
    forall i ensures i in BitsOf(v, 32 * w, 32) ==> 32 * w <= i < 32 * w + 32 {
      if i in BitsOf(v, 32 * w, 32) { BitsOfHas(v, 32 * w, 32, i); }
    }
  }

  /** The threshold of each context from 0x200000, 0x1000 bytes apart, and four bytes on its claim and
      complete register. */
  lemma ContextAt(s: State, ctx: nat, v: nat)
    requires |s.priority| == 64 && ctx < |s.contexts|
    ensures var at := 0x20_0000 + 0x1000 * ctx;
            && Load(s, at) == Plain(s.contexts[ctx].threshold)
            && Store(s, at, v) == s.(contexts := s.contexts[ctx := s.contexts[ctx].(threshold := v)])
            && Load(s, at + 4) == ClaimRead(ctx) && Store(s, at + 4, v) == Completed(s, v)
  {
    hide WithWord, Completed;
    var at := 0x1000 * ctx;
    assert at / 0x1000 == ctx && at % 0x1000 == 0 && (at + 4) / 0x1000 == ctx && (at + 4) % 0x1000 == 4;
  }

  /** Nothing is at any other word: it reads as zero and ignores writes. */
  lemma NothingAt(s: State, offset: nat, v: nat)
    requires |s.priority| == 64 && offset % 4 == 0
    requires 0x100 <= offset && !(0x1000 <= offset < 0x1008)
    requires !(0x2000 <= offset < 0x20_0000 && (offset - 0x2000) / 0x80 < |s.contexts| && offset % 0x80 < 8)
    requires !(0x20_0000 <= offset && (offset - 0x20_0000) / 0x1000 < |s.contexts| && offset % 0x1000 <= 4)
    ensures Load(s, offset) == Plain(0) && Store(s, offset, v) == s
  {
    hide WithWord, Completed, WordOf;
    assert (offset - 0x2000) % 0x80 == offset % 0x80 && (offset - 0x20_0000) % 0x1000 == offset % 0x1000;
  }
}
