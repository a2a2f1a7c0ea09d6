/** The life of a hart, as the Hart State Management chapter of the RISC-V SBI specification has it,
    and what a legal history of calls and executions is. */
module Hsm {

  const SUCCESS: int := 0
  const ERR_INVALID_PARAM: int := -3
  const ERR_ALREADY_AVAILABLE: int := -6

  datatype Life = Stopped | StartPending(addr: nat, opaque_: nat) | Started

  /** The registers a start sets: the program counter, a0 and a1, the privilege, address translation,
      the interrupt enables and whether a reservation is held. */
  datatype Regs = Regs(pc: nat, a0: int, a1: nat, priv: nat, satp: nat, sie: bool, spie: bool, reserved: bool)

  /** `StartCall` is a hart_start naming hart h and what it returned; `Begin` is h coming up at an
      address; `Executed` is one step of h, from the given registers; `StopCall` is h stopping itself. */
  datatype Entry =
    | StartCall(h: nat, addr: nat, opaque_: nat, result: int)
    | Begin(h: nat, addr: nat, opaque_: nat)
    | Executed(h: nat, regs: Regs)
    | StopCall(h: nat)

  /** What an event about a hart makes of its state. */
  function Moved(life: Life, e: Entry): Life {
    match e
    case StartCall(_, addr, opaque_, result) => if result == SUCCESS then StartPending(addr, opaque_) else life
    case Begin(_, _, _) => Started
    case Executed(_, _) => life
    case StopCall(_) => Stopped
  }

  /** The state of hart h after a history. */
  function LifeOf(boot: seq<Life>, log: seq<Entry>, h: nat): Life
    requires h < |boot|
  {
    if log == [] then boot[h]
    else
      var e, before := log[|log| - 1], LifeOf(boot, log[..|log| - 1], h);
      if e.h == h then Moved(before, e) else before
  }

  /** May this happen next? A start is granted exactly to a stopped hart; a granted start is carried
      out with that call's own arguments; only a started hart executes. */
  predicate Allowed(boot: seq<Life>, log: seq<Entry>, e: Entry) {
    match e
    case StartCall(h, _, _, result) =>
      result == if h >= |boot| then ERR_INVALID_PARAM
                else if LifeOf(boot, log, h) == Stopped then SUCCESS else ERR_ALREADY_AVAILABLE
    case Begin(h, addr, opaque_) => h < |boot| && LifeOf(boot, log, h) == StartPending(addr, opaque_)
    case Executed(h, _) => h < |boot| && LifeOf(boot, log, h) == Started
    case StopCall(h) => h < |boot| && LifeOf(boot, log, h) == Started
  }

  ghost predicate Legal(boot: seq<Life>, log: seq<Entry>) {
    forall i {:trigger log[i]} :: 0 <= i < |log| ==> Allowed(boot, log[..i], log[i])
  }

  lemma LegalExtends(boot: seq<Life>, log: seq<Entry>, e: Entry)
    requires Legal(boot, log) && Allowed(boot, log, e)
    ensures Legal(boot, log + [e])
    ensures forall h {:trigger LifeOf(boot, log + [e], h)} :: 0 <= h < |boot| ==>
      LifeOf(boot, log + [e], h) == if h == e.h then Moved(LifeOf(boot, log, h), e) else LifeOf(boot, log, h)
  {
    hide Allowed;
    var l := log + [e];
    assert l[..|log|] == log;
    forall i {:trigger l[i]} | 0 <= i < |l| ensures Allowed(boot, l[..i], l[i]) {
      if i < |log| { assert l[..i] == log[..i] && l[i] == log[i]; }
    }
  }

  /** From a granted start of t until t begins, t is pending with that call's arguments. */
  lemma {:induction false} PendingUntilBegin(boot: seq<Life>, log: seq<Entry>, i: nat, j: nat)
    requires Legal(boot, log) && i < j <= |log| && log[i].StartCall? && log[i].result == SUCCESS && log[i].h < |boot|
    requires forall k :: i < k < j && log[k].Begin? ==> log[k].h != log[i].h
    ensures LifeOf(boot, log[..j], log[i].h) == StartPending(log[i].addr, log[i].opaque_)
    decreases j
  {
    var t, pre := log[i].h, log[..j];
    assert pre[..|pre| - 1] == log[..j - 1];
    if j > i + 1 {
      PendingUntilBegin(boot, log, i, j - 1);
      assert Allowed(boot, log[..j - 1], log[j - 1]);
    }
  }

  /** After a granted start the target's next own doing is to begin, exactly at that call's address
      with that call's argument; starts issued meanwhile are refused. */
  lemma GrantedStartIsKept(boot: seq<Life>, log: seq<Entry>, i: nat, j: nat)
    requires Legal(boot, log) && i < j < |log| && log[i].StartCall? && log[i].result == SUCCESS
    requires log[j].h == log[i].h && forall k :: i < k < j && log[k].Begin? ==> log[k].h != log[i].h
    ensures log[j].StartCall? ==> log[j].result == ERR_ALREADY_AVAILABLE
    ensures !log[j].StartCall? ==> log[j] == Begin(log[i].h, log[i].addr, log[i].opaque_)
  {
    assert Allowed(boot, log[..i], log[i]) && Allowed(boot, log[..j], log[j]);
    PendingUntilBegin(boot, log, i, j);
  }

  /** What a pending start goes back to. */
  lemma {:induction false} PendingHasCall(boot: seq<Life>, log: seq<Entry>, n: nat, t: nat) returns (i: nat)
    requires Legal(boot, log) && n <= |log| && t < |boot| && !boot[t].StartPending?
    requires LifeOf(boot, log[..n], t).StartPending?
    ensures i < n && log[i].StartCall? && log[i].h == t && log[i].result == SUCCESS
    ensures LifeOf(boot, log[..n], t) == StartPending(log[i].addr, log[i].opaque_)
    ensures forall k :: i < k < n && log[k].Begin? ==> log[k].h != t
    decreases n
  {
    var e := log[n - 1];
    assert log[..n][..n - 1] == log[..n - 1] && log[..n][n - 1] == e;
    if e.StartCall? && e.h == t && e.result == SUCCESS {
      return n - 1;
    }
    i := PendingHasCall(boot, log, n - 1, t);
  }

  /** Every beginning answers one granted start: no hart starts twice for one call, or unasked. */
  lemma BeginHasCall(boot: seq<Life>, log: seq<Entry>, j: nat) returns (i: nat)
    requires Legal(boot, log) && j < |log| && log[j].Begin? && forall h :: 0 <= h < |boot| ==> !boot[h].StartPending?
    ensures i < j && log[i] == StartCall(log[j].h, log[j].addr, log[j].opaque_, SUCCESS)
    ensures forall k :: i < k < j && log[k].Begin? ==> log[k].h != log[j].h
  {
    assert Allowed(boot, log[..j], log[j]);
    i := PendingHasCall(boot, log, j, log[j].h);
  }

  /** One granted start, one beginning: between two beginnings of a hart lies another granted start. */
  lemma OneBeginPerGrant(boot: seq<Life>, log: seq<Entry>, j: nat, k: nat) returns (i: nat)
    requires Legal(boot, log) && j < k < |log| && log[j].Begin? && log[k].Begin? && log[j].h == log[k].h
    requires forall h :: 0 <= h < |boot| ==> !boot[h].StartPending?
    ensures j < i < k && log[i] == StartCall(log[k].h, log[k].addr, log[k].opaque_, SUCCESS)
  {
    hide Legal;
    i := BeginHasCall(boot, log, k);
  }
}
