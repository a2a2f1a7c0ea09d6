/** The machine-wide clock (`src/clint.rs`). */
module Clock {
  import opened Prelude

  /** `ipt` instructions make one tick of `mtime`; `subtick` counts those since the last tick. */
  datatype Time = Time(mtime: nat, ipt: nat, subtick: nat)

  function Divisor(t: Time): (d: nat)
    ensures d >= 1
  {
    if t.ipt <= 1 then 1 else t.ipt
  }

  function Ticked(t: Time, n: nat): Time {
    if t.ipt <= 1 then t.(mtime := t.mtime + n)
    else t.(mtime := t.mtime + (t.subtick + n) / t.ipt, subtick := (t.subtick + n) % t.ipt)
  }

  /** Advancing in two parts is advancing at once. */
  lemma TicksAdd(t: Time, a: nat, b: nat)
    ensures Ticked(Ticked(t, a), b) == Ticked(t, a + b)
  {
    if t.ipt > 1 { InTwoParts(t.subtick + a, b, t.ipt); }
  }

  lemma InTwoParts(x: nat, b: nat, d: nat)
    requires d > 0
    ensures (x + b) / d == x / d + (x % d + b) / d && (x + b) % d == (x % d + b) % d
  {
    var q, r := DivMod(x, d);
    var q2, r2 := DivMod(r + b, d);
    Regroup(x, b, d, q, r, q2, r2);
    QuotientIs(x + b, d, q + q2, r2);
  }

  lemma Regroup(x: nat, b: nat, d: nat, q: nat, r: nat, q2: nat, r2: nat)
    requires x == d * q + r && r + b == d * q2 + r2
    ensures x + b == d * (q + q2) + r2
  {
    assert d * (q + q2) == d * q + d * q2;
  }

  /** No instruction is lost or counted twice. */
  lemma TickConserves(t: Time, n: nat)
    ensures var u := Ticked(t, n);
            u.mtime * Divisor(t) + u.subtick == t.mtime * Divisor(t) + t.subtick + n
  {
    if t.ipt > 1 {
      var q, r := DivMod(t.subtick + n, t.ipt);
      Distribute(t.mtime, q, t.ipt);
    }
  }

  lemma Distribute(a: nat, b: nat, d: nat)
    ensures (a + b) * d == a * d + d * b
  {
  }

  /** What a hart that has run `live` instructions this round reads as the time. */
  function Now(t: Time, live: nat): nat { t.mtime + live / Divisor(t) }

  lemma QuotientOrder(a: nat, b: nat, d: nat)
    requires a <= b && d > 0
    ensures a / d <= b / d
  {
    if a / d > b / d {
      AtLeastOnce(d, a / d - b / d);
    }
  }

  /** Reads move forward within a round, and a tick for the longest run covers every read in it. */
  lemma NowMoves(t: Time, live: nat, later: nat)
    requires live <= later
    ensures t.mtime <= Now(t, live) <= Now(t, later) <= Ticked(t, later).mtime
  {
    QuotientOrder(live, later, Divisor(t));
    if t.ipt > 1 { QuotientOrder(later, t.subtick + later, t.ipt); }
  }

  class Clock {
    var mtime: nat
    var live: nat
    var ipt: nat
    var subtick: nat

    ghost function View(): Time
      reads this
    {
      Time(mtime, ipt, subtick)
    }

    constructor ()
      ensures mtime == 0 && live == 0 && ipt == 1 && subtick == 0
    {
      mtime, live, ipt, subtick := 0, 0, 1, 0;
    }

    method Tick(n: nat)
      modifies `mtime, `subtick
      ensures View() == Ticked(old(View()), n)
    {
      var d := if ipt <= 1 then 1 else ipt;
      if d <= 1 {
        mtime := mtime + n;
        return;
      }
      var sub := subtick + n;
      mtime := mtime + sub / d;
      subtick := sub % d;
    }

    /** Forward, never back. */
    method AdvanceTo(t: nat)
      modifies `mtime, `subtick
      ensures mtime == (if t > old(mtime) then t else old(mtime))
      ensures subtick == if t > old(mtime) then 0 else old(subtick)
    {
      if t > mtime {
        mtime, subtick := t, 0;
      }
    }
  }
}
