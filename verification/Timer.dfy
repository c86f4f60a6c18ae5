/**
 Forwarding the machine timer to supervisor mode. Each store and each CSR write of the
 M-mode trap vector is one step; the clock may tick between any two.
 */
module Timer {
  import opened Bytes

  const HALF: nat := 0x1_0000_0000
  /** The comparator with its high word all ones. */
  const GUARD: nat := 0xFFFF_FFFF * 0x1_0000_0000

  /** Where the hart is in the M-mode vector, if anywhere. */
  datatype Pc =
    | Idle
    | Guarded(t: u64)   // high word set to all ones
    | LowSet(t: u64)    // low word stored
    | Written(t: u64)   // high word stored
    | Acked(t: u64)     // STIP cleared
    | Masked            // forwarding an interrupt: MTIE cleared

  datatype State = State(
    mtime: nat, cmp: u64, mtie: bool, stip: bool, pc: Pc,
    // the deadline of the last completed set_timer, and the comparator before the one in progress
    deadline: Option<u64>, before: u64)

  datatype Event = Tick | SetTimer(t: u64) | Interrupt | Continue

  function Init(cmp: u64): (s: State) {
    State(0, cmp, false, false, Idle, None, cmp)
  }

  /** An M-mode interrupt is taken only outside the vector. */
  predicate Enabled(s: State, e: Event) {
    match e
    case Tick => true
    case SetTimer(_) => s.pc.Idle?
    case Interrupt => s.pc.Idle? && s.mtie && s.mtime >= s.cmp
    case Continue => !s.pc.Idle?
  }

  function WithHigh(cmp: u64, hi: u32): (r: u64) {
    hi * HALF + cmp % HALF
  }

  function WithLow(cmp: u64, lo: u32): (r: u64) {
    cmp / HALF * HALF + lo
  }

  function Fire(s: State, e: Event): (s': State)
    requires Enabled(s, e)
  {
    match e
    case Tick => s.(mtime := s.mtime + 1)
    case SetTimer(t) => s.(cmp := WithHigh(s.cmp, 0xFFFF_FFFF), before := s.cmp, pc := Guarded(t))
    case Interrupt => s.(mtie := false, pc := Masked)
    case Continue =>
      match s.pc
      case Guarded(t) => s.(cmp := WithLow(s.cmp, t % HALF), pc := LowSet(t))
      case LowSet(t) => s.(cmp := WithHigh(s.cmp, t / HALF), pc := Written(t))
      case Written(t) => s.(stip := false, pc := Acked(t))
      case Acked(t) => s.(mtie := true, pc := Idle, deadline := Some(t))
      case Masked => s.(stip := true, pc := Idle)
      case Idle => s
  }

  /** What the comparator shows at each point of an update. */
  ghost predicate Comparator(s: State) {
    match s.pc
    case Guarded(t) => s.cmp == GUARD + s.before % HALF
    case LowSet(t) => s.cmp == GUARD + t % HALF
    case Written(t) => s.cmp == t
    case Acked(t) => s.cmp == t
    case _ => s.deadline.Some? ==> s.cmp == s.deadline.value
  }

  ghost predicate Inv(s: State) {
    && Comparator(s)
    && (s.deadline.None? ==> !s.mtie && !s.stip && !s.pc.Masked?)
    && (s.deadline.Some? ==>
          match s.pc
          case Acked(_) => !s.stip
          case Masked => !s.mtie && !s.stip && s.mtime >= s.deadline.value
          case _ => s.mtie != s.stip && (s.stip ==> s.mtime >= s.deadline.value))
  }

  lemma HalvesSwap(cmp: u64, t: u64)
    ensures WithHigh(cmp, 0xFFFF_FFFF) == GUARD + cmp % HALF
    ensures WithLow(GUARD + cmp % HALF, t % HALF) == GUARD + t % HALF
    ensures WithHigh(GUARD + t % HALF, t / HALF) == t
  {
  }

  lemma {:induction false} StepKeepsInv(s: State, e: Event)
    requires Inv(s) && Enabled(s, e)
    ensures Inv(Fire(s, e))
  {
    hide WithHigh, WithLow;
    match e
    case SetTimer(t) => HalvesSwap(s.cmp, t);
    case Continue =>
      if s.pc.Guarded? || s.pc.LowSet? {
        HalvesSwap(s.before, s.pc.t);
      }
    case _ =>
  }

  ghost predicate Runs(s: State, es: seq<Event>)
    decreases |es|
  {
    es == [] || (Enabled(s, es[0]) && Runs(Fire(s, es[0]), es[1..]))
  }

  ghost function Final(s: State, es: seq<Event>): (r: State)
    requires Runs(s, es)
    decreases |es|
  {
    if es == [] then s else Final(Fire(s, es[0]), es[1..])
  }

  lemma {:induction false} RunKeepsInv(s: State, es: seq<Event>)
    requires Inv(s) && Runs(s, es)
    ensures Inv(Final(s, es))
    decreases |es|
  {
    hide Inv, Fire;
    if es != [] {
      StepKeepsInv(s, es[0]);
      RunKeepsInv(Fire(s, es[0]), es[1..]);
    }
  }

  /**
   Over every interleaving: outside the vector and once a timer is set, exactly one of MTIE
   and STIP is on; a forwarded tick is never early; and a deadline that has passed is either
   forwarded or about to be, so no tick is lost.
   */
  lemma {:induction false} TicksForwarded(cmp: u64, es: seq<Event>)
    requires Runs(Init(cmp), es)
    ensures var s := Final(Init(cmp), es);
            s.pc.Idle? && s.deadline.Some? ==>
              && s.mtie != s.stip && s.cmp == s.deadline.value
              && (s.stip ==> s.mtime >= s.deadline.value)
              && (s.mtime >= s.deadline.value ==> s.stip || Enabled(s, Interrupt))
  {
    hide Runs, Final;
    RunKeepsInv(Init(cmp), es);
  }

  /** While the comparator is rewritten it is never below both the old value and the new one. */
  lemma {:induction false} NeverBelowBoth(cmp: u64, es: seq<Event>)
    requires Runs(Init(cmp), es)
    ensures var s := Final(Init(cmp), es);
            s.pc.Guarded? || s.pc.LowSet? || s.pc.Written? || s.pc.Acked? ==> s.cmp >= s.before || s.cmp >= s.pc.t
  {
    hide Runs, Final;
    RunKeepsInv(Init(cmp), es);
    var s := Final(Init(cmp), es);
    HighWordAtMost(s.before);
    if s.pc.LowSet? {
      HighWordAtMost(s.pc.t);
    }
  }

  lemma HighWordAtMost(x: u64)
    ensures x <= GUARD + x % HALF
  {
    assert x == x / HALF * HALF + x % HALF;
  }

  // ---- reading the clock in halves ----

  /** Successive readings of a clock that never runs backwards. */
  ghost predicate Monotone(clock: seq<u64>) {
    forall i, j :: 0 <= i <= j < |clock| ==> clock[i] <= clock[j]
  }

  lemma {:induction false} SameHigh(a: u64, b: u64, c: u64)
    requires a <= b <= c && a / HALF == c / HALF
    ensures a / HALF * HALF + b % HALF == b
  {
  }

  /**
   High, low, high again, until both high words agree. `clock` is the time at each of the
   reads; the value returned is the time at one of them.
   */
  method ReadClock(clock: seq<u64>) returns (r: Option<u64>, used: nat)
    requires Monotone(clock)
    ensures used <= |clock|
    ensures r.Some? ==> 3 <= used && r.value == clock[used - 2]
    ensures r.None? ==> used + 3 > |clock|
    ensures forall i: nat :: 3 * i + 3 <= used && (r.None? || 3 * i + 3 < used) ==>
              clock[3 * i] / HALF != clock[3 * i + 2] / HALF
  {
    used := 0;
    ghost var tries := 0;
    while used + 3 <= |clock|
      invariant used == 3 * tries <= |clock|
      invariant forall i: nat :: i < tries ==> clock[3 * i] / HALF != clock[3 * i + 2] / HALF
      decreases |clock| - used
    {
      var hi := clock[used] / HALF;
      var lo := clock[used + 1] % HALF;
      var hi2 := clock[used + 2] / HALF;
      if hi == hi2 {
        SameHigh(clock[used], clock[used + 1], clock[used + 2]);
        return Some(hi * HALF + lo), used + 3;
      }
      used := used + 3;
      tries := tries + 1;
    }
    r := None;
  }
}
